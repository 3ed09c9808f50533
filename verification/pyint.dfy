/** Python's `int(s)` on a string and `str(n)` on an integer, as far as
    python/release.py relies on them to read and write version components. */
module PyInt {
  import opened Outcome
  import opened Strings

  function DigitValue(c: char): (d: nat)
    requires IsDigit(c)
    ensures d < 10
  {
    (c as int) - ('0' as int)
  }

  function DigitChar(d: nat): (c: char)
    requires d < 10
    ensures IsDigit(c) && DigitValue(c) == d
  {
    ('0' as int + d) as char
  }

  /** The characters a base-10 literal body may contain. */
  predicate DigitsOrUnderscores(d: string) {
    forall k :: 0 <= k < |d| ==> IsDigit(d[k]) || d[k] == '_'
  }

  /** A literal body `int()` accepts in base 10: ASCII digits, with single
      underscores allowed between two digits. Leading zeros are allowed. */
  predicate IsDigitBody(d: string) {
    && |d| > 0
    && DigitsOrUnderscores(d)
    && IsDigit(d[0])
    && IsDigit(d[|d| - 1])
    && (forall k :: 0 <= k < |d| - 1 ==> d[k] == '_' ==> d[k + 1] != '_')
  }

  /** The value of a literal body, underscores ignored. */
  function BodyValue(d: string): nat
    requires DigitsOrUnderscores(d)
  {
    if |d| == 0 then 0
    else
      var v := BodyValue(d[..|d| - 1]);
      if d[|d| - 1] == '_' then v else v * 10 + DigitValue(d[|d| - 1])
  }

  /** The characters `int()` skips around a literal. Other Unicode
      whitespace is turned into a space first, but the ASCII information
      separators U+001C to U+001F, which `str.isspace()` and `strip()` count
      as whitespace, are left alone and then rejected. */
  const IntSpace: set<char> := PySpace - {'\U{1C}', '\U{1D}', '\U{1E}', '\U{1F}'}

  /** `int(s)`: surrounding whitespace in `IntSpace` is ignored, an optional
      sign, then a literal body; `None` is the ValueError. */
  function ParseInt(s: string): Option<int> {
    var t := Strip(s, IntSpace);
    if |t| > 0 && (t[0] == '-' || t[0] == '+') then
      var body := t[1..];
      if IsDigitBody(body) then
        var v: int := BodyValue(body);
        Some(if t[0] == '-' then -v else v)
      else None
    else if IsDigitBody(t) then Some(BodyValue(t))
    else None
  }

  /** `str(n)` for a natural number: decimal digits without leading zeros. */
  function NatToStr(n: nat): (r: string)
    ensures |r| > 0
    ensures forall k :: 0 <= k < |r| ==> IsDigit(r[k])
    ensures |r| > 1 ==> r[0] != '0'
  {
    if n < 10 then [DigitChar(n)] else NatToStr(n / 10) + [DigitChar(n % 10)]
  }

  /** `str(n)` for any integer. */
  function IntToStr(n: int): (r: string)
    ensures |r| > 0
    ensures n < 0 <==> r[0] == '-'
    ensures forall k :: 0 < k < |r| ==> IsDigit(r[k])
  {
    if n < 0 then "-" + NatToStr(-n) else NatToStr(n)
  }

  /** Reading the digits of `str(n)` gives `n` back. */
  lemma {:induction false} NatToStrValue(n: nat)
    ensures DigitsOrUnderscores(NatToStr(n))
    ensures BodyValue(NatToStr(n)) == n
  {
    var r := NatToStr(n);
    if n < 10 {
      assert r[..0] == [];
    } else {
      NatToStrValue(n / 10);
      assert r[..|r| - 1] == NatToStr(n / 10);
    }
  }

  /** `int(str(n)) == n`. */
  lemma ParseIntToStr(n: int)
    ensures ParseInt(IntToStr(n)) == Some(n)
  {
    var r := IntToStr(n);
    var m: nat := if n < 0 then -n else n;
    var body := NatToStr(m);
    NotSpace(r[0]);
    NotSpace(r[|r| - 1]);
    StripNothing(r, IntSpace);
    NatToStrValue(m);
    assert IsDigitBody(body);
    if n < 0 {
      assert r[1..] == body;
    } else {
      assert r == body;
    }
  }

  /** A literal with no sign is read as its digits; anything accepted
      leaves something after stripping that ends in a digit, and a negative
      value needs a leading minus. */
  lemma ParseIntShape(s: string)
    ensures var t, r := Strip(s, IntSpace), ParseInt(s);
      && (IsDigitBody(t) ==> r == Some(BodyValue(t)))
      && (r.Some? ==> |t| > 0 && IsDigit(t[|t| - 1]) && (r.value < 0 ==> t[0] == '-'))
  {
  }

  /** `int` skips its own whitespace first, so removing that whitespace
      beforehand changes nothing. */
  lemma ParseIntIgnoresSpace(s: string)
    ensures ParseInt(Strip(s, IntSpace)) == ParseInt(s)
  {
    StripIdempotent(s, IntSpace);
    SameStripSameParse(Strip(s, IntSpace), s);
  }

  /** `int` looks only at what is left after stripping. */
  lemma SameStripSameParse(a: string, b: string)
    requires Strip(a, IntSpace) == Strip(b, IntSpace)
    ensures ParseInt(a) == ParseInt(b)
  {
  }

  lemma NotSpace(c: char)
    requires IsDigit(c) || c == '-'
    ensures c !in PySpace && c !in IntSpace
  {
  }

  /** An information separator is whitespace to `strip()` but not to
      `int()`: `int("\x1c5")` is a ValueError even though stripping the
      text first gives "5". */
  lemma SeparatorRejected(s: string, five: string)
    requires s == "\U{1C}5" && five == "5"
    ensures Strip(s, PySpace) == five
    ensures ParseInt(five) == Some(5)
    ensures ParseInt(s) == None
  {
    NotSpace('5');
    assert '\U{1C}' in PySpace;
    assert s[1..] == five;
    OneSpaceStripped(s, PySpace);
    OneDigit(five);
    SeparatorKept(s);
  }

  lemma SeparatorKept(s: string)
    requires |s| > 0 && s[0] == '\U{1C}' && IsDigit(s[|s| - 1])
    ensures ParseInt(s) == None
  {
    assert '\U{1C}' !in IntSpace;
    NotSpace(s[|s| - 1]);
    StripNothing(s, IntSpace);
    assert !IsDigit(s[0]);
  }

  /** Other Unicode whitespace, such as the ideographic space, is skipped. */
  lemma IdeographicSpaceSkipped(s: string, five: string)
    requires s == "\U{3000}5" && five == "5"
    ensures ParseInt(s) == Some(5)
  {
    NotSpace('5');
    assert '\U{3000}' in IntSpace;
    assert s[1..] == five;
    OneSpaceStripped(s, IntSpace);
    OneDigit(five);
    StripNothing(five, IntSpace);
    SameStripSameParse(s, five);
  }

  lemma OneSpaceStripped(s: string, cs: set<char>)
    requires |s| == 2 && s[0] in cs && s[1] !in cs
    ensures Strip(s, cs) == s[1..]
  {
    assert LeadingRun(s, cs) == 1;
    assert Strip(s, cs) != "";
  }

  lemma OneDigit(d: string)
    requires |d| == 1 && IsDigit(d[0])
    ensures ParseInt(d) == Some(DigitValue(d[0]))
  {
    NotSpace(d[0]);
    StripNothing(d, IntSpace);
    assert d[0] != '-' && d[0] != '+';
    assert IsDigitBody(d);
    assert d[..0] == "";
    assert BodyValue(d) == DigitValue(d[0]);
  }

  /** Surrounding whitespace and a plus sign are accepted, as `int` does. */
  lemma ParseIntExample()
    ensures ParseInt(" +1_0\n") == Some(10)
  {
    StripExample();
    var t := "+1_0";
    SignedExample(t, "1_0");
    SameStripSameParse(" +1_0\n", t);
  }

  lemma SignedExample(t: string, body: string)
    requires t == "+1_0" && body == "1_0"
    ensures Strip(t, IntSpace) == t
    ensures ParseInt(t) == Some(10)
  {
    NotSpace('0');
    assert t[0] == '+' && t[|t| - 1] == '0' && '+' !in IntSpace;
    StripNothing(t, IntSpace);
    assert t[1..] == body;
    assert IsDigitBody(body);
    assert body[..2] == "1_" && "1_"[..1] == "1" && "1"[..0] == "";
    assert BodyValue(body) == 10;
  }

  lemma StripExample()
    ensures Strip(" +1_0\n", IntSpace) == "+1_0"
  {
    var s := " +1_0\n";
    NotSpace('0');
    assert '+' !in IntSpace;
    assert LeadingRun(s[1..], IntSpace) == 0;
    assert LeadingRun(s, IntSpace) == 1;
    var rest := s[1..];
    assert rest[..|rest| - 1] == "+1_0";
    assert TrailingRun("+1_0", IntSpace) == 0;
    assert TrailingRun(rest, IntSpace) == 1;
  }

  /** A doubled underscore is a ValueError ... */
  lemma DoubleUnderscoreRejected()
    ensures ParseInt("1__0") == None
  {
    assert LeadingRun("1__0", IntSpace) == 0;
    assert TrailingRun("1__0", IntSpace) == 0;
    assert "1__0"[1] == '_' && "1__0"[2] == '_';
  }

  /** ... and so is a bare sign. */
  lemma BareSignRejected()
    ensures ParseInt("-") == None
  {
    assert LeadingRun("-", IntSpace) == 0;
    assert TrailingRun("-", IntSpace) == 0;
    assert "-"[1..] == "";
  }
}
