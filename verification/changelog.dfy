/** The `Changelog` class of python/release.py. The file is read into a
    list of pieces that alternate between body text and section headers;
    `add_unreleased_section` and `prepare_release` edit that list, and the
    file is rewritten as the pieces glued back together. */
module Changelog {
  import opened Outcome
  import opened Strings

  // ---------------------------------------------------------------------
  // Header recognition: RE_HEADER and RE_HEADER_UNRELEASED.
  // ---------------------------------------------------------------------

  /** `[0-9]+\.[0-9]+\.[0-9]` at the start of `x`. Each run of digits must
      be maximal, because the character after it must be a dot. */
  predicate StartsWithVersion(x: string) {
    var a := LeadingRun(x, Digits);
    && 0 < a < |x|
    && x[a] == '.'
    && var y := x[a + 1..];
       var b := LeadingRun(y, Digits);
       && 0 < b
       && b + 1 < |y|
       && y[b] == '.'
       && y[b + 1] in Digits
  }

  /** What may follow `##` and the whitespace on a header's last line:
      exactly `Unreleased`, or `v` and a version followed by anything. */
  predicate IsHeaderTitle(line: string) {
    line == "Unreleased" || (|line| > 0 && line[0] == 'v' && StartsWithVersion(line[1..]))
  }

  /** The rest of the line that starts at `q`, without its line break. */
  function LineAt(u: string, q: nat): (line: string)
    requires q <= |u|
    ensures q + |line| <= |u|
    ensures u[q..q + |line|] == line
    ensures '\n' !in line
    ensures q + |line| == |u| || u[q + |line|] == '\n'
  {
    var rest := u[q..];
    var line := rest[..IndexOf(rest, '\n')];
    assert u[q..q + |line|] == line;
    line
  }

  /** RE_HEADER anchored at the start of `u`, from position `q` on: the
      two `#` (positions 0 and 1), the whitespace run (which may cross line
      breaks), then a title that takes the rest of its line. The result is
      where the match ends. */
  function MatchFrom(u: string, q: nat): (r: Option<nat>)
    requires q <= |u|
    ensures r.Some? ==> q < r.value <= |u| && 2 < r.value
    decreases |u| - q
  {
    if q < 2 then
      if q < |u| && u[q] == '#' then MatchFrom(u, q + 1) else None
    else if q < |u| && u[q] in PySpace then MatchFrom(u, q + 1)
    else
      var line := LineAt(u, q);
      if IsHeaderTitle(line) then Some(q + |line|) else None
  }

  /** Where RE_HEADER stops when it matches at the start of `u`, or `None`
      when it does not match there. */
  function HeaderEnd(u: string): (r: Option<nat>)
    ensures r.Some? ==> 2 < r.value <= |u|
  {
    MatchFrom(u, 0)
  }

  /** `RE_HEADER.fullmatch(s)`. */
  predicate IsHeader(s: string) {
    HeaderEnd(s) == Some(|s|)
  }

  /** RE_HEADER_UNRELEASED anchored at the start of `s`, from position `q`
      on, matching to the end of `s`. */
  predicate UnreleasedFrom(s: string, q: nat)
    requires q <= |s|
    decreases |s| - q
  {
    if q < 2 then q < |s| && s[q] == '#' && UnreleasedFrom(s, q + 1)
    else if q < |s| && s[q] in PySpace then UnreleasedFrom(s, q + 1)
    else s[q..] == "Unreleased"
  }

  /** `RE_HEADER_UNRELEASED.fullmatch(s)`. */
  predicate IsUnreleasedHeader(s: string) {
    UnreleasedFrom(s, 0)
  }

  /** A match ends at a line end, just after a character that is not a line
      break, and the text it covers matches in full on its own. */
  lemma {:induction false} MatchFromShape(u: string, q: nat, k: nat)
    requires q <= |u|
    requires MatchFrom(u, q) == Some(k)
    ensures k <= |u| && u[k - 1] != '\n'
    ensures k == |u| || u[k] == '\n'
    ensures MatchFrom(u[..k], q) == Some(k)
    decreases |u| - q
  {
    if q < 2 || (q < |u| && u[q] in PySpace) {
      MatchFromShape(u, q + 1, k);
      MatchStepPrefix(u, q, k);
    } else {
      TitleShape(u, q, k);
    }
  }

  /** One step of the `##` or the whitespace run, inside the prefix that
      the match covers. */
  lemma MatchStepPrefix(u: string, q: nat, k: nat)
    requires q < |u| && (q < 2 || u[q] in PySpace)
    requires q < 2 ==> u[q] == '#'
    requires q < k <= |u|
    requires MatchFrom(u[..k], q + 1) == Some(k)
    ensures MatchFrom(u[..k], q) == Some(k)
  {
    assert u[..k][q] == u[q];
  }

  /** The base case of `MatchFromShape`: the title line. */
  lemma TitleShape(u: string, q: nat, k: nat)
    requires 2 <= q <= |u|
    requires !(q < |u| && u[q] in PySpace)
    requires MatchFrom(u, q) == Some(k)
    ensures k <= |u| && u[k - 1] != '\n'
    ensures k == |u| || u[k] == '\n'
    ensures MatchFrom(u[..k], q) == Some(k)
  {
    var line := LineAt(u, q);
    assert IsHeaderTitle(line) && k == q + |line|;
    assert |line| > 0;
    assert line[|line| - 1] == u[k - 1];
    LineAtPrefix(u, q);
    assert q < k && u[..k][q] == u[q];
  }

  /** The line at `q` is the same once the text is cut at its end. */
  lemma LineAtPrefix(u: string, q: nat)
    requires q <= |u|
    ensures var k := q + |LineAt(u, q)|; LineAt(u[..k], q) == LineAt(u, q)
  {
    var line := LineAt(u, q);
    var v := u[..q + |line|];
    assert v[q..] == line;
    assert IndexOf(line, '\n') == |line|;
    assert line[..|line|] == line;
  }

  /** A match found inside a longer text is a full match on its own, and it
      ends at a line end. */
  lemma HeaderEndPrefix(u: string)
    requires HeaderEnd(u).Some?
    ensures IsHeader(u[..HeaderEnd(u).value])
    ensures HeaderEnd(u).value == |u| || u[HeaderEnd(u).value] == '\n'
  {
    MatchFromShape(u, 0, HeaderEnd(u).value);
  }

  /** A header starts with `#` and does not end with a line break. */
  lemma HeaderShape(s: string)
    ensures IsHeader(s) ==> |s| > 2 && s[0] == '#' && s[|s| - 1] != '\n'
  {
    if IsHeader(s) {
      MatchFromShape(s, 0, |s|);
    }
  }

  // ---------------------------------------------------------------------
  // The two patterns read declaratively: `##`, a run of whitespace (which
  // may hold line breaks), then the title, which must fill the rest of the
  // text because `fullmatch` is anchored at both ends.
  // ---------------------------------------------------------------------

  /** `s[q..n]` is whitespace, all of which `\s*` may consume. */
  ghost predicate SpaceRun(s: string, q: int, n: int) {
    0 <= q <= n <= |s| && forall k :: q <= k < n ==> s[k] in PySpace
  }

  /** `RE_HEADER.fullmatch(s)`, read off the pattern. */
  ghost predicate HeaderSpec(s: string) {
    && |s| >= 2 && s[0] == '#' && s[1] == '#'
    && exists n :: SpaceRun(s, 2, n) && '\n' !in s[n..] && IsHeaderTitle(s[n..])
  }

  /** `RE_HEADER_UNRELEASED.fullmatch(s)`, read off the pattern. */
  ghost predicate UnreleasedSpec(s: string) {
    && |s| >= 2 && s[0] == '#' && s[1] == '#'
    && exists n :: SpaceRun(s, 2, n) && s[n..] == "Unreleased"
  }

  /** The header recogniser is exactly the pattern. */
  lemma IsHeaderMeaning(s: string)
    ensures IsHeader(s) <==> HeaderSpec(s)
  {
    if |s| >= 2 && s[0] == '#' && s[1] == '#' {
      HashesThenMatch(s);
      MatchFromFull(s, 2);
    } else {
      assert MatchFrom(s, 0) == None by {
        if |s| > 0 && s[0] == '#' {
          assert MatchFrom(s, 1) == None;
        }
      }
    }
  }

  lemma HashesThenMatch(s: string)
    requires |s| >= 2 && s[0] == '#' && s[1] == '#'
    ensures MatchFrom(s, 0) == MatchFrom(s, 2)
  {
    assert MatchFrom(s, 1) == MatchFrom(s, 2);
  }

  /** No title starts with whitespace. */
  lemma TitleNotSpace(t: string)
    requires IsHeaderTitle(t)
    ensures |t| > 0 && t[0] !in PySpace
  {
    assert 'U' !in PySpace && 'v' !in PySpace;
    if t == "Unreleased" {
      assert t[0] == 'U';
    }
  }

  /** From position `q` after the `##`, the scan matches the whole text
      exactly when a whitespace run and then a one-line title fill it. */
  lemma {:induction false} MatchFromFull(u: string, q: nat)
    requires 2 <= q <= |u|
    ensures MatchFrom(u, q) == Some(|u|) <==>
      exists n :: SpaceRun(u, q, n) && '\n' !in u[n..] && IsHeaderTitle(u[n..])
    decreases |u| - q
  {
    if q < |u| && u[q] in PySpace {
      MatchFromFull(u, q + 1);
      SpaceRunStep(u, q);
    } else {
      TitleAtScanEnd(u, q);
    }
  }

  /** One whitespace character: a run from `q` that is followed by a title
      is the character and a run from `q + 1`. */
  lemma SpaceRunStep(u: string, q: nat)
    requires 2 <= q < |u| && u[q] in PySpace
    ensures MatchFrom(u, q) == MatchFrom(u, q + 1)
    ensures (exists n :: SpaceRun(u, q, n) && '\n' !in u[n..] && IsHeaderTitle(u[n..])) <==>
      (exists n :: SpaceRun(u, q + 1, n) && '\n' !in u[n..] && IsHeaderTitle(u[n..]))
  {
    forall n | SpaceRun(u, q, n) && '\n' !in u[n..] && IsHeaderTitle(u[n..])
      ensures SpaceRun(u, q + 1, n)
    {
      TitleNotSpace(u[n..]);
      assert u[n..][0] == u[n];
    }
    forall n | SpaceRun(u, q + 1, n)
      ensures SpaceRun(u, q, n)
    {
    }
  }

  /** Where the whitespace ends, the title must be the rest of the text. */
  lemma TitleAtScanEnd(u: string, q: nat)
    requires 2 <= q <= |u|
    requires !(q < |u| && u[q] in PySpace)
    ensures MatchFrom(u, q) == Some(|u|) <==> '\n' !in u[q..] && IsHeaderTitle(u[q..])
    ensures forall n :: SpaceRun(u, q, n) ==> n == q
  {
    LineIsRest(u, q);
    assert MatchFrom(u, q) == if IsHeaderTitle(LineAt(u, q)) then Some(q + |LineAt(u, q)|) else None;
    NoLongerRun(u, q);
  }

  /** The line at `q` reaches the end of the text exactly when no line
      break follows `q`, and it is then the rest of the text. */
  lemma LineIsRest(u: string, q: nat)
    requires q <= |u|
    ensures q + |LineAt(u, q)| == |u| <==> '\n' !in u[q..]
    ensures '\n' !in u[q..] ==> LineAt(u, q) == u[q..]
  {
    var line := LineAt(u, q);
    if q + |line| < |u| {
      assert u[q..][|line|] == '\n';
    } else {
      assert line == u[q..];
    }
  }

  /** A run that starts at a character outside the whitespace is empty. */
  lemma NoLongerRun(u: string, q: nat)
    requires q <= |u|
    requires !(q < |u| && u[q] in PySpace)
    ensures forall n :: SpaceRun(u, q, n) ==> n == q
  {
    forall n | SpaceRun(u, q, n)
      ensures n == q
    {
    }
  }

  /** The Unreleased recogniser is exactly its pattern. */
  lemma IsUnreleasedMeaning(s: string)
    ensures IsUnreleasedHeader(s) <==> UnreleasedSpec(s)
  {
    if |s| >= 2 && s[0] == '#' && s[1] == '#' {
      assert UnreleasedFrom(s, 0) == UnreleasedFrom(s, 2) by {
        assert UnreleasedFrom(s, 1) == UnreleasedFrom(s, 2);
      }
      UnreleasedFromFull(s, 2);
    } else if |s| > 0 && s[0] == '#' {
      assert !UnreleasedFrom(s, 1);
    }
  }

  /** From position `q` after the `##`, the rest is a whitespace run and
      then exactly `Unreleased`. */
  lemma {:induction false} UnreleasedFromFull(s: string, q: nat)
    requires 2 <= q <= |s|
    ensures UnreleasedFrom(s, q) <==> exists n :: SpaceRun(s, q, n) && s[n..] == "Unreleased"
    decreases |s| - q
  {
    if q < |s| && s[q] in PySpace {
      UnreleasedFromFull(s, q + 1);
      UnreleasedRunStep(s, q);
    } else {
      NoLongerRun(s, q);
    }
  }

  lemma UnreleasedRunStep(s: string, q: nat)
    requires 2 <= q < |s| && s[q] in PySpace
    ensures (exists n :: SpaceRun(s, q, n) && s[n..] == "Unreleased") <==>
      (exists n :: SpaceRun(s, q + 1, n) && s[n..] == "Unreleased")
  {
    forall n | SpaceRun(s, q, n) && s[n..] == "Unreleased"
      ensures SpaceRun(s, q + 1, n)
    {
      assert 'U' !in PySpace;
      assert s[n..][0] == s[n];
    }
    forall n | SpaceRun(s, q + 1, n)
      ensures SpaceRun(s, q, n)
    {
    }
  }

  /** Every `## Unreleased` header is a header. */
  lemma UnreleasedIsHeader(s: string)
    requires IsUnreleasedHeader(s)
    ensures IsHeader(s)
  {
    UnreleasedMatches(s, 0);
  }

  lemma {:induction false} UnreleasedMatches(s: string, q: nat)
    requires q <= |s|
    requires UnreleasedFrom(s, q)
    ensures MatchFrom(s, q) == Some(|s|)
    decreases |s| - q
  {
    if q < 2 || (q < |s| && s[q] in PySpace) {
      UnreleasedMatches(s, q + 1);
    } else {
      UnreleasedTitle(s, q);
    }
  }

  lemma UnreleasedTitle(s: string, q: nat)
    requires q <= |s|
    requires s[q..] == "Unreleased"
    ensures LineAt(s, q) == "Unreleased"
  {
    assert IndexOf("Unreleased", '\n') == 10;
  }

  /** The section `add_unreleased_section` inserts is not a header: the
      blank line it carries is part of the piece. */
  lemma InsertedSectionIsNotHeader()
    ensures !IsHeader(UnreleasedSection)
  {
    assert UnreleasedSection[|UnreleasedSection| - 1] == '\n';
    HeaderShape(UnreleasedSection);
  }

  /** The header `prepare_release` writes is a header whenever the version
      starts with three dot-separated numbers and neither part breaks the
      line. */
  lemma ReleaseHeaderIsHeader(version: string, date: string)
    requires StartsWithVersion(version)
    requires '\n' !in version && '\n' !in date
    ensures IsHeader(ReleaseHeader(version, date))
  {
    var title := "v" + (version + (" " + date));
    ReleaseTitle(version, date, title);
    ReleaseHeaderParts(version, date, title);
    TitledHeader(title);
  }

  lemma ReleaseHeaderParts(version: string, date: string, title: string)
    requires title == "v" + (version + (" " + date))
    ensures ReleaseHeader(version, date) == "## " + title
  {
  }

  lemma ReleaseTitle(version: string, date: string, title: string)
    requires StartsWithVersion(version)
    requires '\n' !in version && '\n' !in date
    requires title == "v" + (version + (" " + date))
    ensures IsHeaderTitle(title) && '\n' !in title && title[0] !in PySpace
  {
    assert title[0] == 'v' && 'v' !in PySpace;
    assert title[1..] == version + (" " + date);
    VersionPrefix(version, " " + date);
    assert forall c :: c in title ==> c == 'v' || c == ' ' || c in version || c in date;
  }

  /** `## ` and a title line make a header. */
  lemma TitledHeader(title: string)
    requires IsHeaderTitle(title) && '\n' !in title
    requires title[0] !in PySpace
    ensures IsHeader("## " + title)
  {
    var h := "## " + title;
    ReleaseTitleLine(h, title);
    assert h[3] == title[0];
    assert MatchFrom(h, 3) == Some(|h|);
    assert h[2] == ' ' && ' ' in PySpace;
    assert MatchFrom(h, 2) == Some(|h|);
    assert h[0] == '#' && h[1] == '#';
    assert MatchFrom(h, 1) == Some(|h|);
  }

  lemma ReleaseTitleLine(h: string, title: string)
    requires h == "## " + title && '\n' !in title
    ensures LineAt(h, 3) == title
  {
    assert h[3..] == title;
    assert IndexOf(title, '\n') == |title|;
    assert title[..|title|] == title;
  }

  /** A version prefix stays one when more text follows. */
  lemma VersionPrefix(x: string, tail: string)
    requires StartsWithVersion(x)
    ensures StartsWithVersion(x + tail)
  {
    var a := LeadingRun(x, Digits);
    LeadingRunExtend(x, tail, Digits);
    var y := x[a + 1..];
    var b := LeadingRun(y, Digits);
    assert (x + tail)[a + 1..] == y + tail;
    LeadingRunExtend(y, tail, Digits);
  }

  // ---------------------------------------------------------------------
  // `_parse`: `RE_HEADER.split(text)` with the header kept as a piece.
  // ---------------------------------------------------------------------

  /** `re.MULTILINE` lets `^` match at the start and after every line break. */
  predicate IsLineStart(t: string, p: nat)
    requires p <= |t|
  {
    p == 0 || t[p - 1] == '\n'
  }

  /** The split of `t[start..]`, where the body piece now being read began
      at `start` and the search has reached `pos`. */
  function SplitFrom(t: string, start: nat, pos: nat): seq<string>
    requires start <= pos <= |t|
    decreases |t| - pos
  {
    if pos == |t| then [t[start..]]
    else if IsLineStart(t, pos) && HeaderEnd(t[pos..]).Some? then
      var e := pos + HeaderEnd(t[pos..]).value;
      [t[start..pos], t[pos..e]] + SplitFrom(t, e, e)
    else SplitFrom(t, start, pos + 1)
  }

  /** `_parse`: `RE_HEADER.split(text)`. It keeps its documented promise:
      the pieces glue back to the text, and they alternate between body
      text and headers. */
  function Parse(text: string): (pieces: seq<string>)
    ensures Concat(pieces) == text
    ensures Alternates(pieces)
  {
    SplitFromMeaning(text, 0, 0);
    SplitFrom(text, 0, 0)
  }

  /** The documented shape of the pieces: body text at even places, a
      header at odd places, starting and ending with body text. */
  ghost predicate Alternates(pieces: seq<string>) {
    && |pieces| % 2 == 1
    && (forall i :: 0 <= i < |pieces| && i % 2 == 1 ==> IsHeader(pieces[i]))
    && (forall i :: 0 <= i < |pieces| && i % 2 == 0 ==> !IsHeader(pieces[i]))
  }

  lemma AlternatesCons(body: string, header: string, rest: seq<string>)
    requires !IsHeader(body) && IsHeader(header) && Alternates(rest)
    ensures Alternates([body, header] + rest)
  {
    var all := [body, header] + rest;
    assert forall i :: 2 <= i < |all| ==> all[i] == rest[i - 2];
  }

  /** A body piece is never a header: it is empty, or it starts with the
      line break that ended a header, or it ends with the line break before
      a header, or it is the whole text, where no header matched. */
  lemma BodyIsNotHeader(t: string, start: nat, end: nat)
    requires start <= end <= |t|
    requires start == 0 || start == |t| || t[start] == '\n'
    requires end == |t| || IsLineStart(t, end)
    requires start == 0 && end == |t| ==> HeaderEnd(t).None?
    ensures !IsHeader(t[start..end])
  {
    var b := t[start..end];
    HeaderShape(b);
    if start < end {
      if start > 0 {
        assert b[0] == t[start];
      } else if end < |t| {
        assert b[|b| - 1] == t[end - 1];
      } else {
        assert b == t;
      }
    }
  }

  /** Scanning from `pos` glues back to the rest of the text and yields
      alternating pieces. */
  lemma {:induction false} SplitFromMeaning(t: string, start: nat, pos: nat)
    requires start <= pos <= |t|
    requires start == 0 || start == |t| || t[start] == '\n'
    requires start == 0 && pos > 0 ==> HeaderEnd(t).None?
    ensures Concat(SplitFrom(t, start, pos)) == t[start..]
    ensures Alternates(SplitFrom(t, start, pos))
    decreases |t| - pos
  {
    if pos == |t| {
      SplitAtEnd(t, start);
    } else if IsLineStart(t, pos) && HeaderEnd(t[pos..]).Some? {
      var e := pos + HeaderEnd(t[pos..]).value;
      HeaderEndsLine(t, pos);
      SplitFromMeaning(t, e, e);
      SplitAtHeader(t, start, pos);
    } else {
      if start == 0 && pos == 0 {
        assert t[pos..] == t;
      }
      SplitFromMeaning(t, start, pos + 1);
      SplitPastNonHeader(t, start, pos);
    }
  }

  /** A header found at `pos` ends at a line end. */
  lemma HeaderEndsLine(t: string, pos: nat)
    requires pos < |t| && HeaderEnd(t[pos..]).Some?
    ensures var e := pos + HeaderEnd(t[pos..]).value; e == |t| || t[e] == '\n'
  {
    var u := t[pos..];
    var e := pos + HeaderEnd(u).value;
    HeaderEndPrefix(u);
    if e < |t| {
      assert u[e - pos] == t[e];
    }
  }

  /** A header at `pos`: the body before it and the header come first. */
  lemma SplitAtHeader(t: string, start: nat, pos: nat)
    requires start <= pos < |t|
    requires start == 0 || start == |t| || t[start] == '\n'
    requires IsLineStart(t, pos) && HeaderEnd(t[pos..]).Some?
    requires var e := pos + HeaderEnd(t[pos..]).value;
      Concat(SplitFrom(t, e, e)) == t[e..] && Alternates(SplitFrom(t, e, e))
    ensures Concat(SplitFrom(t, start, pos)) == t[start..]
    ensures Alternates(SplitFrom(t, start, pos))
  {
    var e := pos + HeaderEnd(t[pos..]).value;
    HeaderFound(t, start, pos);
    var rest := SplitFrom(t, e, e);
    assert SplitFrom(t, start, pos) == [t[start..pos], t[pos..e]] + rest;
    GlueHeader(t, start, pos, e, rest);
  }

  /** No header at `pos`: the scan moves on with the same pieces. */
  lemma SplitPastNonHeader(t: string, start: nat, pos: nat)
    requires start <= pos < |t|
    requires !(IsLineStart(t, pos) && HeaderEnd(t[pos..]).Some?)
    requires Concat(SplitFrom(t, start, pos + 1)) == t[start..]
    requires Alternates(SplitFrom(t, start, pos + 1))
    ensures Concat(SplitFrom(t, start, pos)) == t[start..]
    ensures Alternates(SplitFrom(t, start, pos))
  {
    assert SplitFrom(t, start, pos) == SplitFrom(t, start, pos + 1);
  }

  /** The last body piece. */
  lemma SplitAtEnd(t: string, start: nat)
    requires start <= |t|
    requires start == 0 || start == |t| || t[start] == '\n'
    requires start == 0 && |t| > 0 ==> HeaderEnd(t).None?
    ensures Concat(SplitFrom(t, start, |t|)) == t[start..]
    ensures Alternates(SplitFrom(t, start, |t|))
  {
    ConcatSingle(t[start..]);
    BodyIsNotHeader(t, start, |t|);
    assert t[start..] == t[start..|t|];
  }

  /** A header found at `pos`: the body before it is not a header, the
      match is one, and it ends at a line end. */
  lemma HeaderFound(t: string, start: nat, pos: nat)
    requires start <= pos < |t|
    requires start == 0 || start == |t| || t[start] == '\n'
    requires IsLineStart(t, pos) && HeaderEnd(t[pos..]).Some?
    ensures var e := pos + HeaderEnd(t[pos..]).value;
      && !IsHeader(t[start..pos])
      && IsHeader(t[pos..e])
      && (e == |t| || t[e] == '\n')
  {
    var u := t[pos..];
    var e := pos + HeaderEnd(u).value;
    HeaderEndPrefix(u);
    assert u[..e - pos] == t[pos..e];
    if e < |t| {
      assert u[e - pos] == t[e];
    }
    BodyIsNotHeader(t, start, pos);
  }

  /** Gluing a body piece and a header in front of the rest. */
  lemma GlueHeader(t: string, start: nat, pos: nat, e: nat, rest: seq<string>)
    requires start <= pos < e <= |t|
    requires !IsHeader(t[start..pos]) && IsHeader(t[pos..e])
    requires Concat(rest) == t[e..] && Alternates(rest)
    ensures Concat([t[start..pos], t[pos..e]] + rest) == t[start..]
    ensures Alternates([t[start..pos], t[pos..e]] + rest)
  {
    AlternatesCons(t[start..pos], t[pos..e], rest);
    ConcatAppend([t[start..pos], t[pos..e]], rest);
    ConcatPair(t[start..pos], t[pos..e]);
    assert t[start..] == t[start..pos] + t[pos..e] + t[e..];
  }

  // ---------------------------------------------------------------------
  // The changelog object and its edits.
  // ---------------------------------------------------------------------

  /** The three ValueErrors the edits raise, each with the file name its
      message names, and the IndexError `prepare_release` would raise if an
      Unreleased header were the last piece. */
  datatype ChangelogError =
    | NoReleaseHeader(filename: string)
    | EmptyUnreleased(filename: string)
    | NoUnreleasedPlaceholder(filename: string)
    | IndexError
  {
    /** The ValueError's message. */
    function Message(): string
      requires !IndexError?
    {
      match this
      case NoReleaseHeader(f) =>
        "In " + f + ", could not find existing release header before which to insert Unreleased header"
      case EmptyUnreleased(f) =>
        "In " + f + ", an Unreleased header was found, but its contents were empty"
      case NoUnreleasedPlaceholder(f) =>
        "In " + f + ", could not find Unreleased placeholder header to insert release info"
    }
  }

  /** A `Changelog`: the name used in messages and the current pieces. The
      file handle is left out; the file's text is `Text`. */
  datatype Changelog = Changelog(filename: string, pieces: seq<string>)

  /** `Changelog(file_handle, filename)`: the file's text, parsed. */
  function Open(text: string, filename: string): (c: Changelog)
    ensures c.filename == filename
    ensures Text(c) == text
    ensures Alternates(c.pieces)
  {
    Changelog(filename, Parse(text))
  }

  /** `_rewrite`: the text written back is the pieces glued together. */
  function Text(c: Changelog): string {
    Concat(c.pieces)
  }

  /** `i` is the first piece that is a header. */
  ghost predicate IsFirstHeader(pieces: seq<string>, i: int) {
    && 0 <= i < |pieces|
    && IsHeader(pieces[i])
    && forall j :: 0 <= j < i ==> !IsHeader(pieces[j])
  }

  /** `i` is the first piece that is an Unreleased header. */
  ghost predicate IsFirstUnreleased(pieces: seq<string>, i: int) {
    && 0 <= i < |pieces|
    && IsUnreleasedHeader(pieces[i])
    && forall j :: 0 <= j < i ==> !IsUnreleasedHeader(pieces[j])
  }

  /** The loop of `add_unreleased_section`, from piece `k` on. */
  function FindHeader(pieces: seq<string>, k: nat): (r: Option<nat>)
    requires k <= |pieces|
    requires forall j :: 0 <= j < k ==> !IsHeader(pieces[j])
    ensures r.Some? ==> IsFirstHeader(pieces, r.value)
    ensures r.None? ==> forall j :: 0 <= j < |pieces| ==> !IsHeader(pieces[j])
    decreases |pieces| - k
  {
    if k == |pieces| then None
    else if IsHeader(pieces[k]) then Some(k)
    else FindHeader(pieces, k + 1)
  }

  /** The loop of `prepare_release`, from piece `k` on. */
  function FindUnreleased(pieces: seq<string>, k: nat): (r: Option<nat>)
    requires k <= |pieces|
    requires forall j :: 0 <= j < k ==> !IsUnreleasedHeader(pieces[j])
    ensures r.Some? ==> IsFirstUnreleased(pieces, r.value)
    ensures r.None? ==> forall j :: 0 <= j < |pieces| ==> !IsUnreleasedHeader(pieces[j])
    decreases |pieces| - k
  {
    if k == |pieces| then None
    else if IsUnreleasedHeader(pieces[k]) then Some(k)
    else FindUnreleased(pieces, k + 1)
  }

  const UnreleasedSection := "## Unreleased\n\n"

  /** `add_unreleased_section`: before the first header, unless it is
      already an Unreleased header, insert an empty Unreleased section. */
  function AddUnreleasedSection(c: Changelog): (r: Result<Changelog, ChangelogError>)
    ensures r.Err? <==> forall j :: 0 <= j < |c.pieces| ==> !IsHeader(c.pieces[j])
    ensures r.Err? ==> r.error == NoReleaseHeader(c.filename)
    ensures r.Ok? ==> exists i :: IsFirstHeader(c.pieces, i) && r.value == Inserted(c, i)
  {
    match FindHeader(c.pieces, 0)
    case None => Err(NoReleaseHeader(c.filename))
    case Some(i) => Ok(Inserted(c, i))
  }

  /** The changelog `add_unreleased_section` leaves when the first header
      is piece `i`. */
  function Inserted(c: Changelog, i: nat): (r: Changelog)
    requires i < |c.pieces|
    ensures r.filename == c.filename
    ensures IsUnreleasedHeader(c.pieces[i]) ==> r.pieces == c.pieces
    ensures !IsUnreleasedHeader(c.pieces[i]) ==>
      && |r.pieces| == |c.pieces| + 1
      && r.pieces[i] == UnreleasedSection
      && (forall j :: 0 <= j < i ==> r.pieces[j] == c.pieces[j])
      && (forall j :: i <= j < |c.pieces| ==> r.pieces[j + 1] == c.pieces[j])
  {
    if IsUnreleasedHeader(c.pieces[i]) then c
    else c.(pieces := c.pieces[..i] + [UnreleasedSection] + c.pieces[i..])
  }

  /** `prepare_release`: the first Unreleased header becomes the release
      header, provided the section under it has something besides
      whitespace. */
  function PrepareRelease(c: Changelog, version: string, date: string): (r: Result<Changelog, ChangelogError>)
    ensures r.Err? && r.error.NoUnreleasedPlaceholder? <==>
      forall j :: 0 <= j < |c.pieces| ==> !IsUnreleasedHeader(c.pieces[j])
    ensures r.Err? ==> r.error.IndexError? || r.error.filename == c.filename
    ensures r.Ok? ==> exists i :: IsFirstUnreleased(c.pieces, i) && r.value == Released(c, i, version, date)
  {
    match FindUnreleased(c.pieces, 0)
    case None => Err(NoUnreleasedPlaceholder(c.filename))
    case Some(i) =>
      if i + 1 == |c.pieces| then Err(IndexError)
      else if Strip(c.pieces[i + 1], PySpace) == "" then Err(EmptyUnreleased(c.filename))
      else Ok(Released(c, i, version, date))
  }

  /** There is one first Unreleased header. */
  lemma FirstUnreleasedUnique(pieces: seq<string>, i: int, j: int)
    requires IsFirstUnreleased(pieces, i) && IsFirstUnreleased(pieces, j)
    ensures i == j
  {
  }

  /** Which of its outcomes `prepare_release` reaches, given the first
      Unreleased header `i`: an IndexError when it is the last piece, the
      empty-section ValueError when the next piece is only whitespace, and
      the release otherwise. */
  lemma PrepareReleaseOutcome(c: Changelog, version: string, date: string, i: nat)
    requires IsFirstUnreleased(c.pieces, i)
    ensures i + 1 == |c.pieces| <==> PrepareRelease(c, version, date) == Err(IndexError)
    ensures i + 1 < |c.pieces| && Strip(c.pieces[i + 1], PySpace) == "" <==>
      PrepareRelease(c, version, date) == Err(EmptyUnreleased(c.filename))
    ensures i + 1 < |c.pieces| && Strip(c.pieces[i + 1], PySpace) != "" <==>
      PrepareRelease(c, version, date) == Ok(Released(c, i, version, date))
  {
    var k := FindUnreleased(c.pieces, 0);
    FirstUnreleasedUnique(c.pieces, i, k.value);
  }

  /** `## v{version} {date}` in place of piece `i` and nothing else. */
  function Released(c: Changelog, i: nat, version: string, date: string): (r: Changelog)
    requires i < |c.pieces|
    ensures r.filename == c.filename
    ensures |r.pieces| == |c.pieces|
    ensures r.pieces[i] == ReleaseHeader(version, date)
    ensures forall j :: 0 <= j < |c.pieces| && j != i ==> r.pieces[j] == c.pieces[j]
  {
    c.(pieces := c.pieces[i := ReleaseHeader(version, date)])
  }

  /** `f"## v{version} {date}"`; the date is passed as the text `str()`
      gives for it. */
  function ReleaseHeader(version: string, date: string): string {
    "## v" + version + " " + date
  }

  // ---------------------------------------------------------------------
  // Properties of the edits.
  // ---------------------------------------------------------------------

  /** On a freshly read changelog `prepare_release` never reaches its
      IndexError: an Unreleased header is a header, headers sit at odd
      places, and there is an odd number of pieces. */
  lemma OpenedNeverIndexError(text: string, filename: string, version: string, date: string)
    ensures PrepareRelease(Open(text, filename), version, date) != Err(IndexError)
  {
    var c := Open(text, filename);
    var k := FindUnreleased(c.pieces, 0);
    if k.Some? {
      var i := k.value;
      UnreleasedIsHeader(c.pieces[i]);
      assert i % 2 == 1;
      PrepareReleaseOutcome(c, version, date, i);
    }
  }

  /** The text `add_unreleased_section` writes: when it inserts, the old
      text with the empty section spliced in where the first header began,
      and otherwise the old text. */
  lemma AddUnreleasedText(c: Changelog, i: nat)
    requires IsFirstHeader(c.pieces, i)
    ensures AddUnreleasedSection(c) == Ok(Inserted(c, i))
    ensures var p := |Concat(c.pieces[..i])|;
      && p <= |Text(c)|
      && Text(Inserted(c, i)) ==
           if IsUnreleasedHeader(c.pieces[i]) then Text(c)
           else Text(c)[..p] + UnreleasedSection + Text(c)[p..]
  {
    var k := FindHeader(c.pieces, 0).value;
    assert k == i;
    var before, after := c.pieces[..i], c.pieces[i..];
    assert c.pieces == before + after;
    ConcatAppend(before, after);
    var p := |Concat(before)|;
    assert Text(c)[..p] == Concat(before) && Text(c)[p..] == Concat(after);
    if !IsUnreleasedHeader(c.pieces[i]) {
      ConcatAppend(before + [UnreleasedSection], after);
      ConcatPush(before, UnreleasedSection);
    }
  }

  /** The text `prepare_release` writes: the old text with the Unreleased
      header replaced by the release header, all around it untouched. */
  lemma ReleasedText(c: Changelog, i: nat, version: string, date: string)
    requires i < |c.pieces|
    ensures var before, after := Concat(c.pieces[..i]), Concat(c.pieces[i + 1..]);
      && Text(c) == before + c.pieces[i] + after
      && Text(Released(c, i, version, date)) == before + ReleaseHeader(version, date) + after
  {
    var r := Released(c, i, version, date);
    assert r.pieces[..i] == c.pieces[..i];
    assert r.pieces[i + 1..] == c.pieces[i + 1..];
    ConcatAround(c.pieces, i);
    ConcatAround(r.pieces, i);
  }

  /** The release header never reads as an Unreleased header. */
  lemma ReleaseHeaderNotUnreleased(version: string, date: string)
    ensures !IsUnreleasedHeader(ReleaseHeader(version, date))
  {
    var h := ReleaseHeader(version, date);
    assert h[0] == '#' && h[1] == '#' && h[2] == ' ' && h[3] == 'v';
    assert ' ' in PySpace && 'v' !in PySpace;
    assert h[3..][0] == 'v';
    assert !UnreleasedFrom(h, 3);
    assert !UnreleasedFrom(h, 2);
    assert !UnreleasedFrom(h, 1);
  }

  /** What the release script does to the changelog: `prepare_release`,
      then `add_unreleased_section` on the same object. The first header is
      where it was, and it is no longer an Unreleased header, so a fresh
      empty Unreleased section always goes in before it. */
  lemma ReleaseThenAdd(c: Changelog, version: string, date: string)
    requires StartsWithVersion(version)
    requires '\n' !in version && '\n' !in date
    requires PrepareRelease(c, version, date).Ok?
    ensures var released := PrepareRelease(c, version, date).value;
      exists j :: IsFirstHeader(c.pieces, j) &&
        AddUnreleasedSection(released) ==
          Ok(released.(pieces := released.pieces[..j] + [UnreleasedSection] + released.pieces[j..]))
  {
    var released := PrepareRelease(c, version, date).value;
    var i :| IsFirstUnreleased(c.pieces, i) && released == Released(c, i, version, date);
    UnreleasedIsHeader(c.pieces[i]);
    ReleaseHeaderIsHeader(version, date);
    ReleaseHeaderNotUnreleased(version, date);
    var j := FindHeader(c.pieces, 0).value;
    assert j <= i;
    assert IsFirstHeader(released.pieces, j);
    assert !IsUnreleasedHeader(released.pieces[j]);
    AddUnreleasedText(released, j);
  }

  /** The release header is a header exactly when the version and date,
      joined by a space, start with three dot-separated numbers. */
  lemma ReleaseHeaderIsHeaderIff(version: string, date: string)
    requires '\n' !in version && '\n' !in date
    ensures IsHeader(ReleaseHeader(version, date)) <==> StartsWithVersion(version + (" " + date))
  {
    var title := "v" + (version + (" " + date));
    ReleaseHeaderParts(version, date, title);
    assert title[0] == 'v' && title[1..] == version + (" " + date);
    assert '\n' !in title;
    VersionTitledHeader(title);
  }

  /** `## v` and one line: a header exactly when a version follows the `v`. */
  lemma VersionTitledHeader(title: string)
    requires |title| > 0 && title[0] == 'v' && '\n' !in title
    ensures IsHeader("## " + title) <==> StartsWithVersion(title[1..])
  {
    var h := "## " + title;
    assert h[0] == '#' && h[1] == '#' && h[2] == ' ' && h[3] == 'v';
    assert ' ' in PySpace && 'v' !in PySpace;
    HashesThenMatch(h);
    SpaceRunStep(h, 2);
    TitleAtScanEnd(h, 3);
    assert h[3..] == title;
    assert title != "Unreleased" by {
      assert "Unreleased"[0] == 'U';
    }
  }

  /** With a version that lacks the third number, the release header is
      not a header. When it was the only one, the call that follows it in
      the release script finds no header and raises. */
  lemma ShortReleaseLeavesNoHeader(c: Changelog, version: string, date: string, i: nat)
    requires IsFirstUnreleased(c.pieces, i)
    requires forall j :: 0 <= j < |c.pieces| && j != i ==> !IsHeader(c.pieces[j])
    requires '\n' !in version && '\n' !in date && !StartsWithVersion(version + (" " + date))
    requires PrepareRelease(c, version, date).Ok?
    ensures AddUnreleasedSection(PrepareRelease(c, version, date).value) == Err(NoReleaseHeader(c.filename))
  {
    PrepareReleaseOutcome(c, version, date, i);
    var released := Released(c, i, version, date);
    ReleaseHeaderIsHeaderIff(version, date);
    assert forall j :: 0 <= j < |released.pieces| ==> !IsHeader(released.pieces[j]);
  }

  /** `compute_new_versions` accepts `1.2.dev0` and releases `1.2`; the
      release then turns the only header of a changelog into text that is
      no header, and `add_unreleased_section` raises. */
  lemma TwoComponentReleaseExample(c: Changelog, unreleased: string, body: string,
                                   version: string, date: string)
    requires unreleased == "## Unreleased" && body == "\n- x\n"
    requires c == Changelog("CHANGELOG.md", ["", unreleased, body])
    requires version == "1.2" && date == "d"
    ensures PrepareRelease(c, version, date).Ok?
    ensures AddUnreleasedSection(PrepareRelease(c, version, date).value) == Err(NoReleaseHeader("CHANGELOG.md"))
  {
    UnreleasedHeaderExample(unreleased);
    assert !IsUnreleasedHeader("") && !IsHeader("");
    assert body[0] == '\n' && !IsHeader(body);
    assert c.pieces[0] == "" && c.pieces[1] == unreleased && c.pieces[2] == body;
    assert IsFirstUnreleased(c.pieces, 1);
    NotBlank(body, 1);
    PrepareReleaseOutcome(c, version, date, 1);
    ShortVersionExample(version, date);
    ShortReleaseLeavesNoHeader(c, version, date, 1);
  }

  lemma ShortVersionExample(version: string, date: string)
    requires version == "1.2" && date == "d"
    ensures '\n' !in version && '\n' !in date
    ensures !StartsWithVersion(version + (" " + date))
  {
    var x := version + (" " + date);
    assert x == "1.2 d";
    assert LeadingRun(x, Digits) == 1 by {
      assert x[0] in Digits && x[1] !in Digits;
    }
    var y := x[2..];
    assert y[0] in Digits && y[1] == ' ';
    assert LeadingRun(y, Digits) == 1 by {
      assert y[1] !in Digits;
    }
  }

  /** `add_unreleased_section` is not idempotent on one object: the section
      it inserts is not a header, so a second call finds the same first
      header and inserts a second section. Re-reading the file in between,
      as a later run of the script does, finds the new Unreleased header
      instead. */
  lemma AddTwice(c: Changelog, i: nat)
    requires IsFirstHeader(c.pieces, i) && !IsUnreleasedHeader(c.pieces[i])
    ensures AddUnreleasedSection(c).Ok?
    ensures AddUnreleasedSection(AddUnreleasedSection(c).value) ==
      Ok(c.(pieces := c.pieces[..i] + [UnreleasedSection, UnreleasedSection] + c.pieces[i..]))
  {
    AddUnreleasedText(c, i);
    var once := Inserted(c, i);
    InsertedKeepsFirstHeader(c, i);
    AddUnreleasedText(once, i + 1);
    InsertTwice(c.pieces, i, UnreleasedSection);
  }

  /** After an insertion the first header is one place further on. */
  lemma InsertedKeepsFirstHeader(c: Changelog, i: nat)
    requires IsFirstHeader(c.pieces, i) && !IsUnreleasedHeader(c.pieces[i])
    ensures IsFirstHeader(Inserted(c, i).pieces, i + 1)
    ensures Inserted(c, i).pieces[i + 1] == c.pieces[i]
  {
    var once := Inserted(c, i);
    InsertedSectionIsNotHeader();
    assert once.pieces[i] == UnreleasedSection;
    assert forall j :: 0 <= j < i ==> once.pieces[j] == c.pieces[j];
  }

  lemma InsertTwice<T>(xs: seq<T>, i: nat, x: T)
    requires i <= |xs|
    ensures var once := xs[..i] + [x] + xs[i..];
      once[..i + 1] + [x] + once[i + 1..] == xs[..i] + [x, x] + xs[i..]
  {
    var once := xs[..i] + [x] + xs[i..];
    assert once[..i + 1] == xs[..i] + [x];
    assert once[i + 1..] == xs[i..];
  }

  // ---------------------------------------------------------------------
  // The life cycle of test_release.py, on the pieces its texts split into.
  // ---------------------------------------------------------------------

  /** `v0.0.7 2021-01-05` is a release title. The strings come in as
      parameters so that the verifier reasons about them step by step. */
  lemma ReleaseExampleIsHeader(version: string, date: string, header: string)
    requires version == "0.0.7" && date == "2021-01-05"
    requires header == ReleaseHeader(version, date)
    ensures IsHeader(header) && !IsUnreleasedHeader(header)
  {
    ExampleVersion(version);
    ReleaseHeaderIsHeader(version, date);
    ReleaseHeaderNotUnreleased(version, date);
  }

  lemma ExampleVersion(version: string)
    requires version == "0.0.7"
    ensures StartsWithVersion(version)
  {
    assert LeadingRun(version, Digits) == 1 by {
      assert version[0] in Digits && version[1] !in Digits;
    }
    var y := version[2..];
    assert y[0] in Digits && y[1] == '.' && y[2] in Digits;
    assert LeadingRun(y, Digits) == 1 by {
      assert y[1] !in Digits;
    }
  }

  lemma UnreleasedHeaderExample(h: string)
    requires h == "## Unreleased"
    ensures IsUnreleasedHeader(h) && IsHeader(h)
  {
    assert h[2] == ' ' && ' ' in PySpace;
    assert h[3] == 'U' && 'U' !in PySpace;
    assert h[3..] == "Unreleased";
    assert UnreleasedFrom(h, 3);
    assert UnreleasedFrom(h, 2);
    assert UnreleasedFrom(h, 1);
    UnreleasedIsHeader(h);
  }

  lemma IntroIsNotHeader(intro: string)
    requires intro == "# Changelog\n\n"
    ensures !IsHeader(intro) && !IsUnreleasedHeader(intro)
  {
    assert intro[0] == '#' && intro[1] == ' ';
    assert MatchFrom(intro, 1) == None;
    assert !UnreleasedFrom(intro, 1);
  }

  /** Step 2 of the life cycle: the released changelog gets an empty
      Unreleased section above its newest release. */
  lemma AddExample(c: Changelog, intro: string, header: string, foo: string)
    requires intro == "# Changelog\n\n" && foo == "\n\n  - Foo\n"
    requires header == ReleaseHeader("0.0.7", "2021-01-05")
    requires c == Changelog("CHANGELOG.md", [intro, header, foo])
    ensures AddUnreleasedSection(c).Ok?
    ensures Text(AddUnreleasedSection(c).value) == intro + UnreleasedSection + header + foo
  {
    IntroIsNotHeader(intro);
    ReleaseExampleIsHeader("0.0.7", "2021-01-05", header);
    assert IsFirstHeader(c.pieces, 1);
    AddUnreleasedText(c, 1);
    assert Inserted(c, 1).pieces == [intro, UnreleasedSection, header, foo];
    ConcatFour(intro, UnreleasedSection, header, foo);
  }

  /** An existing Unreleased header is not duplicated. */
  lemma AddKeepsExistingExample(c: Changelog, intro: string, unreleased: string)
    requires intro == "# Changelog\n\n" && unreleased == "## Unreleased"
    requires |c.pieces| >= 2 && c.pieces[0] == intro && c.pieces[1] == unreleased
    ensures AddUnreleasedSection(c) == Ok(c)
  {
    IntroIsNotHeader(intro);
    UnreleasedHeaderExample(unreleased);
    assert IsFirstHeader(c.pieces, 1);
    AddUnreleasedText(c, 1);
  }

  /** Step 4: the populated Unreleased section becomes the new release, and
      nothing else changes. */
  lemma PrepareExample(c: Changelog, intro: string, unreleased: string, body: string,
                       version: string, date: string, header: string)
    requires intro == "# Changelog\n\n" && unreleased == "## Unreleased"
    requires body == "\n\n  - Baz\n  - Bar\n\n"
    requires |c.pieces| >= 3 && c.pieces[..3] == [intro, unreleased, body]
    requires version == "0.0.8" && date == "2021-01-06" && header == "## v0.0.8 2021-01-06"
    ensures PrepareRelease(c, version, date) == Ok(c.(pieces := c.pieces[1 := header]))
  {
    IntroIsNotHeader(intro);
    UnreleasedHeaderExample(unreleased);
    assert c.pieces[0] == intro && c.pieces[1] == unreleased && c.pieces[2] == body;
    assert IsFirstUnreleased(c.pieces, 1);
    NotBlank(body, 4);
    PrepareReleaseOutcome(c, version, date, 1);
    ExampleReleaseHeader(version, date, header);
  }

  lemma ExampleReleaseHeader(version: string, date: string, header: string)
    requires version == "0.0.8" && date == "2021-01-06" && header == "## v0.0.8 2021-01-06"
    ensures ReleaseHeader(version, date) == header
  {
    assert "## v" + version == "## v0.0.8";
    assert "## v0.0.8" + " " == "## v0.0.8 ";
    assert "## v0.0.8 " + date == header;
  }

  /** An Unreleased section with nothing in it cannot be released. */
  lemma PrepareEmptyExample(c: Changelog, intro: string, unreleased: string, body: string)
    requires intro == "# Changelog\n\n" && unreleased == "## Unreleased" && body == "\n\n"
    requires |c.pieces| >= 3 && c.pieces[..3] == [intro, unreleased, body]
    ensures PrepareRelease(c, "0.0.8", "2021-01-06") == Err(EmptyUnreleased(c.filename))
  {
    IntroIsNotHeader(intro);
    UnreleasedHeaderExample(unreleased);
    assert c.pieces[0] == intro && c.pieces[1] == unreleased && c.pieces[2] == body;
    assert IsFirstUnreleased(c.pieces, 1);
    assert forall k :: 0 <= k < |body| ==> body[k] in PySpace;
    PrepareReleaseOutcome(c, "0.0.8", "2021-01-06", 1);
  }

  lemma NotBlank(body: string, k: nat)
    requires k < |body| && body[k] == '-'
    ensures Strip(body, PySpace) != ""
  {
    assert '-' !in PySpace;
  }

  lemma ConcatFour(a: string, b: string, c: string, d: string)
    ensures Concat([a, b, c, d]) == a + b + c + d
  {
    ConcatPair(a, b);
    ConcatPush([a, b], c);
    assert [a, b] + [c] == [a, b, c];
    ConcatPush([a, b, c], d);
    assert [a, b, c] + [d] == [a, b, c, d];
  }
}
