/** String helpers with the semantics of the host languages' built-ins:
    JavaScript `Array.prototype.join`, Python `str.join`, `str.split(sep)`,
    `str.strip(chars)` and `str.startswith`. */
module Strings {

  /** The characters for which Python's `str.isspace()` holds; this is also
      the set `\s` matches in a `str` pattern and the set `str.strip()`
      removes when called without arguments. */
  predicate IsPySpace(c: char) {
    || '\t' <= c <= '\r'
    || '\U{1C}' <= c <= ' '
    || c == '\U{85}' || c == '\U{A0}' || c == '\U{1680}'
    || '\U{2000}' <= c <= '\U{200A}'
    || c == '\U{2028}' || c == '\U{2029}' || c == '\U{202F}' || c == '\U{205F}' || c == '\U{3000}'
  }

  const PySpace: set<char> := set c: char | '\t' <= c <= '\U{3000}' && IsPySpace(c)

  /** The ASCII decimal digits, which is what `[0-9]` matches. */
  const Digits: set<char> := set c: char | '0' <= c <= '9'

  predicate IsDigit(c: char) {
    c in Digits
  }

  predicate IsPrefix(p: string, s: string) {
    |p| <= |s| && s[..|p|] == p
  }

  predicate IsSuffix(p: string, s: string) {
    |p| <= |s| && s[|s| - |p|..] == p
  }

  /** `"".join(ss)`: the pieces glued together in order. */
  function Concat(ss: seq<string>): (r: string)
    ensures ss == [] ==> r == ""
  {
    if |ss| == 0 then "" else Concat(ss[..|ss| - 1]) + ss[|ss| - 1]
  }

  lemma {:induction false} ConcatAppend(a: seq<string>, b: seq<string>)
    ensures Concat(a + b) == Concat(a) + Concat(b)
    decreases |b|
  {
    if |b| == 0 {
      assert a + b == a;
    } else {
      var b' := b[..|b| - 1];
      assert (a + b)[..|a + b| - 1] == a + b';
      ConcatAppend(a, b');
    }
  }

  lemma ConcatPush(ss: seq<string>, x: string)
    ensures Concat(ss + [x]) == Concat(ss) + x
  {
    assert (ss + [x])[..|ss|] == ss;
  }

  lemma ConcatSingle(x: string)
    ensures Concat([x]) == x
  {
    assert [x][..0] == [];
  }

  lemma ConcatPair(x: string, y: string)
    ensures Concat([x, y]) == x + y
  {
    assert [x, y][..1] == [x];
    ConcatSingle(x);
  }

  /** Gluing a list is gluing what comes before piece `i`, the piece, and
      what comes after it. */
  lemma ConcatAround(ps: seq<string>, i: nat)
    requires i < |ps|
    ensures Concat(ps) == Concat(ps[..i]) + ps[i] + Concat(ps[i + 1..])
  {
    ConcatSplitAt(ps, i + 1);
    ConcatTakeOne(ps, i);
  }

  lemma ConcatSplitAt(ps: seq<string>, j: nat)
    requires j <= |ps|
    ensures Concat(ps) == Concat(ps[..j]) + Concat(ps[j..])
  {
    var a, b := ps[..j], ps[j..];
    assert a + b == ps;
    ConcatOfParts(a, b, ps);
  }

  lemma ConcatOfParts(a: seq<string>, b: seq<string>, ps: seq<string>)
    requires a + b == ps
    ensures Concat(ps) == Concat(a) + Concat(b)
  {
    ConcatAppend(a, b);
  }

  lemma ConcatTakeOne(ps: seq<string>, i: nat)
    requires i < |ps|
    ensures Concat(ps[..i + 1]) == Concat(ps[..i]) + ps[i]
  {
    assert ps[..i + 1][..i] == ps[..i];
  }

  /** `sep.join(ss)`: the pieces in order, one separator between neighbours. */
  function Join(ss: seq<string>, sep: string): (r: string)
    ensures |ss| == 1 ==> r == ss[0]
  {
    if |ss| == 0 then ""
    else if |ss| == 1 then ss[0]
    else Join(ss[..|ss| - 1], sep) + sep + ss[|ss| - 1]
  }

  lemma {:induction false} JoinAppend(a: seq<string>, x: string, sep: string)
    requires |a| > 0
    ensures Join(a + [x], sep) == Join(a, sep) + sep + x
  {
    assert (a + [x])[..|a + [x]| - 1] == a;
  }

  /** Index of the first occurrence of `c` in `s`, or `|s|` when there is none. */
  function IndexOf(s: string, c: char): (i: nat)
    ensures i <= |s|
    ensures i < |s| ==> s[i] == c
    ensures forall k :: 0 <= k < i ==> s[k] != c
  {
    if |s| == 0 then 0
    else if s[0] == c then 0
    else 1 + IndexOf(s[1..], c)
  }

  /** `s.split(sep)` for a one-character separator: never empty, and an
      empty string splits into one empty piece. */
  function Split(s: string, sep: char): (r: seq<string>)
    ensures |r| >= 1
    ensures forall k :: 0 <= k < |r| ==> sep !in r[k]
    decreases |s|
  {
    var i := IndexOf(s, sep);
    if i == |s| then [s] else [s[..i]] + Split(s[i + 1..], sep)
  }

  /** Splitting undoes joining when no piece holds the separator. */
  lemma {:induction false} SplitJoin(ss: seq<string>, sep: char)
    requires |ss| >= 1
    requires forall k :: 0 <= k < |ss| ==> sep !in ss[k]
    ensures Split(Join(ss, [sep]), sep) == ss
    decreases |ss|
  {
    if |ss| == 1 {
      assert IndexOf(ss[0], sep) == |ss[0]|;
    } else {
      var head, tail := ss[0], ss[1..];
      var rest := Join(tail, [sep]);
      var s := head + [sep] + rest;
      assert [head] + tail == ss;
      JoinCons(head, tail, [sep]);
      assert Join(ss, [sep]) == s;
      IndexOfAfterPrefix(head, sep, rest);
      assert s[..|head|] == head;
      assert s[|head| + 1..] == rest;
      assert Split(s, sep) == [head] + Split(rest, sep);
      SplitJoin(tail, sep);
    }
  }

  /** Joining undoes splitting. */
  lemma {:induction false} JoinSplit(s: string, sep: char)
    ensures Join(Split(s, sep), [sep]) == s
    decreases |s|
  {
    var i := IndexOf(s, sep);
    if i < |s| {
      JoinSplit(s[i + 1..], sep);
      JoinCons(s[..i], Split(s[i + 1..], sep), [sep]);
      assert s == s[..i] + [sep] + s[i + 1..];
    }
  }

  lemma {:induction false} JoinCons(x: string, ss: seq<string>, sep: string)
    requires |ss| >= 1
    ensures Join([x] + ss, sep) == x + sep + Join(ss, sep)
    decreases |ss|
  {
    if |ss| == 1 {
      assert ([x] + ss)[..1] == [x];
    } else {
      var init := ss[..|ss| - 1];
      var last := ss[|ss| - 1];
      assert ss == init + [last];
      assert [x] + ss == ([x] + init) + [last];
      JoinCons(x, init, sep);
      JoinAppend([x] + init, last, sep);
      JoinAppend(init, last, sep);
      assert Join([x] + ss, sep) == (x + sep + Join(init, sep)) + sep + last;
    }
  }

  lemma IndexOfAfterPrefix(a: string, c: char, b: string)
    requires c !in a
    ensures IndexOf(a + [c] + b, c) == |a|
  {
    var s := a + [c] + b;
    assert s[|a|] == c;
    assert forall k :: 0 <= k < |a| ==> s[k] == a[k];
  }

  /** Length of the longest prefix of `s` made of characters in `cs`. */
  function LeadingRun(s: string, cs: set<char>): (n: nat)
    ensures n <= |s|
    ensures forall k :: 0 <= k < n ==> s[k] in cs
    ensures n < |s| ==> s[n] !in cs
  {
    if |s| == 0 || s[0] !in cs then 0 else 1 + LeadingRun(s[1..], cs)
  }

  /** Text after the end of the leading run does not change the run. */
  lemma {:induction false} LeadingRunExtend(s: string, tail: string, cs: set<char>)
    requires LeadingRun(s, cs) < |s|
    ensures LeadingRun(s + tail, cs) == LeadingRun(s, cs)
  {
    if s[0] in cs {
      assert (s + tail)[1..] == s[1..] + tail;
      LeadingRunExtend(s[1..], tail, cs);
    }
  }

  /** Length of the longest suffix of `s` made of characters in `cs`. */
  function TrailingRun(s: string, cs: set<char>): (n: nat)
    ensures n <= |s|
    ensures forall k :: |s| - n <= k < |s| ==> s[k] in cs
    ensures n < |s| ==> s[|s| - n - 1] !in cs
  {
    if |s| == 0 || s[|s| - 1] !in cs then 0 else 1 + TrailingRun(s[..|s| - 1], cs)
  }

  /** `s.strip(chars)`: drop every leading and trailing character in `cs`.
      What is kept is one contiguous part of `s`, everything dropped is in
      `cs`, and what is kept neither starts nor ends with a character of
      `cs`. */
  function Strip(s: string, cs: set<char>): (r: string)
    ensures var i := LeadingRun(s, cs);
      && i + |r| <= |s|
      && s[i..i + |r|] == r
      && (forall k :: i + |r| <= k < |s| ==> s[k] in cs)
    ensures |r| > 0 ==> r[0] !in cs && r[|r| - 1] !in cs
    ensures r == "" <==> forall k :: 0 <= k < |s| ==> s[k] in cs
  {
    var i := LeadingRun(s, cs);
    var rest := s[i..];
    var j := TrailingRun(rest, cs);
    var r := rest[..|rest| - j];
    assert s[i..i + |r|] == r;
    assert forall k :: i <= k < |s| ==> s[k] == rest[k - i];
    r
  }

  /** A string that has nothing to strip is its own strip. */
  lemma StripNothing(s: string, cs: set<char>)
    requires |s| > 0 ==> s[0] !in cs && s[|s| - 1] !in cs
    ensures Strip(s, cs) == s
  {
    if |s| > 0 {
      assert LeadingRun(s, cs) == 0;
      assert TrailingRun(s, cs) == 0;
    }
  }

  /** Stripping twice is stripping once. */
  lemma StripIdempotent(s: string, cs: set<char>)
    ensures Strip(Strip(s, cs), cs) == Strip(s, cs)
  {
    StripNothing(Strip(s, cs), cs);
  }
}
