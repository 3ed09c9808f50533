/** The pure part of mini-lfs-client.py: building LFS server URLs, telling
    a Git LFS pointer file from ordinary content, reading the pointer, and
    accepting the object downloaded for it. The HTTP exchanges and the
    SHA-256 computation are outside; their results come in as parameters.
    Response bodies are strings of characters below 256, one per byte. */
module LfsClient {
  import opened Outcome
  import opened Strings
  import opened PyInt

  // ---------------------------------------------------------------------
  // `url_concat`.
  // ---------------------------------------------------------------------

  const Slash: set<char> := {'/'}

  /** `piece.strip("/")` for every piece. */
  function StripSlashes(pieces: seq<string>): (r: seq<string>)
    ensures |r| == |pieces|
    ensures forall k :: 0 <= k < |pieces| ==> r[k] == Strip(pieces[k], Slash)
  {
    seq(|pieces|, k requires 0 <= k < |pieces| => Strip(pieces[k], Slash))
  }

  /** `url_concat(*pieces)`. */
  function UrlConcat(pieces: seq<string>): (r: string)
    ensures |pieces| == 0 ==> r == ""
    ensures |pieces| == 1 ==> r == Strip(pieces[0], Slash)
  {
    Join(StripSlashes(pieces), "/")
  }

  /** One more piece adds one slash and the piece without its outer
      slashes: the pieces appear in order, one slash between neighbours. */
  lemma UrlConcatAppend(pieces: seq<string>, x: string)
    requires |pieces| > 0
    ensures UrlConcat(pieces + [x]) == UrlConcat(pieces) + "/" + Strip(x, Slash)
  {
    assert StripSlashes(pieces + [x]) == StripSlashes(pieces) + [Strip(x, Slash)];
    JoinAppend(StripSlashes(pieces), Strip(x, Slash), "/");
  }

  /** Splitting the URL at its slashes gives back the stripped pieces, as
      long as no piece has a slash inside. */
  lemma UrlConcatSplits(pieces: seq<string>)
    requires |pieces| > 0
    requires forall k :: 0 <= k < |pieces| ==> '/' !in Strip(pieces[k], Slash)
    ensures Split(UrlConcat(pieces), '/') == StripSlashes(pieces)
  {
    assert "/" == ['/'];
    SplitJoin(StripSlashes(pieces), '/');
  }

  /** Stripping touches only the ends: a piece that neither starts nor ends
      with a slash comes through whole, slashes inside included. */
  lemma InteriorSlashesKept(x: string)
    requires |x| > 0 ==> x[0] != '/' && x[|x| - 1] != '/'
    ensures Strip(x, Slash) == x
  {
    StripNothing(x, Slash);
  }

  /** The batch endpoint on the custom LFS server (mini-lfs-client.py lines
      118-120). The
      fixed pieces come in as parameters so that the verifier reasons about
      them step by step. */
  lemma CustomServerUrl(server: string, org: string, repo: string, batch: string)
    requires batch == "objects/batch"
    ensures UrlConcat([server, org, repo, batch]) ==
      Strip(server, Slash) + "/" + Strip(org, Slash) + "/" + Strip(repo, Slash) + "/" + batch
  {
    assert batch[0] == 'o' && batch[|batch| - 1] == 'h';
    InteriorSlashesKept(batch);
    UrlConcatFour(server, org, repo, batch);
  }

  /** The batch endpoint on GitHub's own LFS server
      (mini-lfs-client.py lines 110-116):
      `info/lfs` keeps its inner slash. */
  lemma GitHubServerUrl(host: string, org: string, repo: string, info: string, batch: string)
    requires host == "https://github.com" && info == "info/lfs" && batch == "objects/batch"
    ensures var name := Strip(repo, Slash) + ".git";
      UrlConcat([host, org, name, info, batch]) ==
        host + "/" + Strip(org, Slash) + "/" + name + "/" + info + "/" + batch
  {
    var stem := Strip(repo, Slash);
    var name := stem + ".git";
    assert name[|name| - 1] == 't';
    assert |stem| > 0 ==> name[0] == stem[0];
    assert host[0] == 'h' && host[|host| - 1] == 'm';
    assert info[0] == 'i' && info[|info| - 1] == 's';
    assert batch[0] == 'o' && batch[|batch| - 1] == 'h';
    InteriorSlashesKept(host);
    InteriorSlashesKept(name);
    InteriorSlashesKept(info);
    InteriorSlashesKept(batch);
    UrlConcatFive(host, org, name, info, batch);
  }

  lemma UrlConcatFour(a: string, b: string, c: string, d: string)
    ensures UrlConcat([a, b, c, d]) ==
      Strip(a, Slash) + "/" + Strip(b, Slash) + "/" + Strip(c, Slash) + "/" + Strip(d, Slash)
  {
    assert [a] + [b] == [a, b];
    UrlConcatAppend([a], b);
    assert [a, b] + [c] == [a, b, c];
    UrlConcatAppend([a, b], c);
    assert [a, b, c] + [d] == [a, b, c, d];
    UrlConcatAppend([a, b, c], d);
  }

  lemma UrlConcatFive(a: string, b: string, c: string, d: string, e: string)
    ensures UrlConcat([a, b, c, d, e]) ==
      Strip(a, Slash) + "/" + Strip(b, Slash) + "/" + Strip(c, Slash) + "/" + Strip(d, Slash) + "/" + Strip(e, Slash)
  {
    UrlConcatFour(a, b, c, d);
    assert [a, b, c, d] + [e] == [a, b, c, d, e];
    UrlConcatAppend([a, b, c, d], e);
  }

  // ---------------------------------------------------------------------
  // Pointer files (the Git LFS v1 pointer format).
  // ---------------------------------------------------------------------

  /** The first line of every pointer file. */
  const VersionLine := "version https://git-lfs.github.com/spec/v1\n"
  const OidPrefix := "oid sha256:"
  const SizePrefix := "size "
  const OidLength := 64

  /** The reasons the client stops: the pointer does not parse (a bare
      `Exception`), or one of the two checks on the downloaded object
      fails (an AssertionError). */
  datatype LfsError =
    | UnparsablePointer(message: string)
    | WrongSize
    | WrongDigest

  const UnparsableMessage := "Unable to parse pointer file!"

  /** The fields the pointer pattern captures: the object id and the size,
      as text. */
  datatype Pointer = Pointer(oid: string, size: string)

  predicate IsLowerHex(c: char) {
    '0' <= c <= '9' || 'a' <= c <= 'f'
  }

  /** `[0-9a-f]{64}`. */
  predicate IsOid(s: string) {
    |s| == OidLength && forall k :: 0 <= k < |s| ==> IsLowerHex(s[k])
  }

  /** `[0-9]+`. */
  predicate IsSizeText(s: string) {
    |s| > 0 && forall k :: 0 <= k < |s| ==> IsDigit(s[k])
  }

  predicate ValidPointer(p: Pointer) {
    IsOid(p.oid) && IsSizeText(p.size)
  }

  /** The pattern's first line. Its two dots are not escaped, so each
      matches any character but a line break. */
  predicate MatchesVersionLine(line: string) {
    && |line| == |VersionLine|
    && forall k :: 0 <= k < |line| ==>
         if VersionLine[k] == '.' then line[k] != '\n' else line[k] == VersionLine[k]
  }

  /** Where the object id starts in a pointer text. */
  const OidStart := |VersionLine| + |OidPrefix|

  /** Where the size digits start in a pointer text. */
  const SizeStart := OidStart + OidLength + 1 + |SizePrefix|

  /** `lfs_pointer_re.fullmatch(text)`: the two captured groups, or the
      exception raised when the text does not match in full. */
  function ParsePointer(text: string): (r: Result<Pointer, LfsError>)
    ensures r.Ok? ==> ValidPointer(r.value)
    ensures r.Err? ==> r.error == UnparsablePointer(UnparsableMessage)
  {
    if && |text| >= SizeStart + 2
       && MatchesVersionLine(text[..|VersionLine|])
       && text[|VersionLine|..OidStart] == OidPrefix
       && IsOid(text[OidStart..OidStart + OidLength])
       && text[OidStart + OidLength] == '\n'
       && text[OidStart + OidLength + 1..SizeStart] == SizePrefix
       && text[|text| - 1] == '\n'
       && IsSizeText(text[SizeStart..|text| - 1])
    then Ok(Pointer(text[OidStart..OidStart + OidLength], text[SizeStart..|text| - 1]))
    else Err(UnparsablePointer(UnparsableMessage))
  }

  /** The pointer file that holds `p`. */
  function Render(p: Pointer): string {
    VersionLine + OidPrefix + p.oid + "\n" + SizePrefix + p.size + "\n"
  }

  lemma VersionLineMatches()
    ensures MatchesVersionLine(VersionLine)
  {
  }

  /** Every valid pointer is read back from its file. */
  lemma ParseRender(p: Pointer)
    requires ValidPointer(p)
    ensures ParsePointer(Render(p)) == Ok(p)
  {
    var text := Render(p);
    VersionLineMatches();
    RenderLayout(p);
  }

  /** Where the parts of a rendered pointer sit. */
  lemma RenderLayout(p: Pointer)
    requires |p.oid| == OidLength
    ensures var text := Render(p);
      && |text| == SizeStart + |p.size| + 1
      && text[..|VersionLine|] == VersionLine
      && text[|VersionLine|..OidStart] == OidPrefix
      && text[OidStart..OidStart + OidLength] == p.oid
      && text[OidStart + OidLength] == '\n'
      && text[OidStart + OidLength + 1..SizeStart] == SizePrefix
      && text[SizeStart..|text| - 1] == p.size
      && text[|text| - 1] == '\n'
  {
  }

  /** Conversely, a text that starts with the exact version line and parses
      is the file of the pointer read from it: nothing else is accepted. */
  lemma RenderParse(text: string)
    requires IsPrefix(VersionLine, text)
    requires ParsePointer(text).Ok?
    ensures Render(ParsePointer(text).value) == text
  {
    var p := ParsePointer(text).value;
    RenderLayout(p);
    var r := Render(p);
    assert |r| == |text|;
    forall k | 0 <= k < |text|
      ensures r[k] == text[k]
    {
      if k < |VersionLine| {
        assert text[..|VersionLine|][k] == text[k];
        assert r[..|VersionLine|][k] == r[k];
      } else if k < OidStart {
        assert text[|VersionLine|..OidStart][k - |VersionLine|] == text[k];
        assert r[|VersionLine|..OidStart][k - |VersionLine|] == r[k];
      } else if k < OidStart + OidLength {
        assert text[OidStart..OidStart + OidLength][k - OidStart] == text[k];
        assert r[OidStart..OidStart + OidLength][k - OidStart] == r[k];
      } else if k == OidStart + OidLength {
      } else if k < SizeStart {
        assert text[OidStart + OidLength + 1..SizeStart][k - OidStart - OidLength - 1] == text[k];
        assert r[OidStart + OidLength + 1..SizeStart][k - OidStart - OidLength - 1] == r[k];
      } else if k < |text| - 1 {
        assert text[SizeStart..|text| - 1][k - SizeStart] == text[k];
        assert r[SizeStart..|text| - 1][k - SizeStart] == r[k];
      }
    }
  }

  /** `int(match["size"])`: the decimal value of the digits, leading zeros
      allowed. */
  function SizeOf(p: Pointer): (n: nat)
    requires IsSizeText(p.size)
    ensures ParseInt(p.size) == Some(n)
  {
    SizeParses(p.size);
    BodyValue(p.size)
  }

  lemma SizeParses(s: string)
    requires IsSizeText(s)
    ensures DigitsOrUnderscores(s)
    ensures ParseInt(s) == Some(BodyValue(s))
  {
    NotSpace(s[0]);
    NotSpace(s[|s| - 1]);
    StripNothing(s, IntSpace);
    assert IsDigitBody(s);
  }

  // ---------------------------------------------------------------------
  // The client's decisions.
  // ---------------------------------------------------------------------

  /** What the raw download turned out to be: the file itself, or a pointer
      to an object on an LFS server. */
  datatype Fetched =
    | Verbatim(content: string)
    | Stored(pointer: Pointer)

  /** mini-lfs-client.py lines 79-105: content that does not start with
      the version line is the file; otherwise it must be a pointer. */
  function Classify(content: string): (r: Result<Fetched, LfsError>)
    ensures !IsPrefix(VersionLine, content) ==> r == Ok(Verbatim(content))
    ensures r.Ok? && r.value.Stored? ==> ValidPointer(r.value.pointer) && Render(r.value.pointer) == content
    ensures r.Err? <==> IsPrefix(VersionLine, content) && ParsePointer(content).Err?
  {
    if !IsPrefix(VersionLine, content) then Ok(Verbatim(content))
    else
      match ParsePointer(content)
      case Err(e) => Err(e)
      case Ok(p) =>
        RenderParse(content);
        Ok(Stored(p))
  }

  /** mini-lfs-client.py lines 174-177: the object downloaded for `p` is
      written only if its length is the pointer's size and its SHA-256 hex
      digest, computed outside the model, is the pointer's object id. These
      are `assert` statements there, so this is what happens when Python
      runs them. */
  function Accept(p: Pointer, download: string, digest: string): (r: Result<string, LfsError>)
    requires ValidPointer(p)
    ensures r.Ok? <==> ParseInt(p.size) == Some(|download|) && digest == p.oid
    ensures r.Ok? ==> r.value == download
    ensures ParseInt(p.size) != Some(|download|) ==> r == Err(WrongSize)
  {
    if |download| != SizeOf(p) then Err(WrongSize)
    else if digest != p.oid then Err(WrongDigest)
    else Ok(download)
  }

  /** Among texts that pass the first check, the pattern accepts exactly
      the files of valid pointers. */
  lemma PointerFiles(text: string)
    requires IsPrefix(VersionLine, text)
    ensures ParsePointer(text).Ok? <==> exists p :: ValidPointer(p) && Render(p) == text
  {
    if ParsePointer(text).Ok? {
      RenderParse(text);
    }
    if exists p :: ValidPointer(p) && Render(p) == text {
      var p :| ValidPointer(p) && Render(p) == text;
      ParseRender(p);
    }
  }

  /** Leading zeros in the size are read as `int()` reads them. */
  lemma SizeExample(p: Pointer)
    requires IsSizeText(p.size) && p.size == "0100"
    ensures SizeOf(p) == 100
  {
    var s := p.size;
    assert s[..3] == "010" && "010"[..2] == "01" && "01"[..1] == "0" && "0"[..0] == "";
    assert BodyValue("0") == 0;
    assert BodyValue("01") == 1;
    assert BodyValue("010") == 10;
    assert BodyValue(s) == 100;
  }
}
