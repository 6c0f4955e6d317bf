/**
 * The repository-identity resolver: `parseRepoString` and `getPackageVCSDetails`.
 * A resolution is either a complete identity or `None`, never a partial one.
 */
module RepoIdentity {
  import opened Results
  import opened RepoPatterns

  datatype Provider = GitHub

  datatype VcsIdentity = VcsIdentity(org: string, repo: string, provider: Provider)

  /** Both names satisfy `[\w.-]+`, so neither is empty nor holds a `/`. */
  predicate WellFormed(v: VcsIdentity) {
    IsSegment(v.org) && IsSegment(v.repo)
  }

  const ShorthandPrefix := "github:"

  predicate HasShorthandPrefix(s: string) {
    ShorthandPrefix <= s
  }

  /** `repository.replace(/^github:/, "")` under the `startsWith("github:")` guard. */
  function StripShorthandPrefix(s: string): (r: string)
    ensures HasShorthandPrefix(s) ==> ShorthandPrefix + r == s
    ensures !HasShorthandPrefix(s) ==> r == s
  {
    if HasShorthandPrefix(s) then s[|ShorthandPrefix|..] else s
  }

  /** The working string after the URL step: the captured `org/repo` on a match, else unchanged. */
  function AfterUrlStep(s: string, dots: DotReading): (r: string)
    ensures MatchGithubUrl(s, dots).None? ==> r == s
    ensures MatchGithubUrl(s, dots).Some? ==> MatchGithubUrl(s, dots) == Some(r) && MatchRepoSpecifier(r).Some?
  {
    match MatchGithubUrl(s, dots)
    case Some(captured) => captured
    case None => s
  }

  /**
   * The three ordered steps of `parseRepoString`, with the dots of `githubURL` read
   * as given: strip the shorthand prefix, replace a hosting URL by its `org/repo`
   * capture, and accept only what `repoSpecifier` accepts.
   */
  function ResolveRepoString(s: string, dots: DotReading): (r: Option<VcsIdentity>)
    ensures r.Some? ==> WellFormed(r.value) && r.value.provider == GitHub
    ensures MatchGithubUrl(StripShorthandPrefix(s), dots).Some? ==> r.Some?
  {
    match MatchRepoSpecifier(AfterUrlStep(StripShorthandPrefix(s), dots))
    case Some(spec) => Some(VcsIdentity(spec.org, spec.repo, GitHub))
    case None => None
  }

  /** `parseRepoString` as written: the dots of `githubURL` match any character. */
  function ParseRepoString(s: string): (r: Option<VcsIdentity>)
    ensures r.Some? ==> WellFormed(r.value) && r.value.provider == GitHub
    ensures MatchGithubUrl(StripShorthandPrefix(s), AnyCharacter).Some? ==> r.Some?
  {
    ResolveRepoString(s, AnyCharacter)
  }

  /** `parseRepoString` with the dots of `github.com` and `.git` escaped, as evidently intended. */
  function CorrectedParseRepoString(s: string): (r: Option<VcsIdentity>)
    ensures r.Some? ==> WellFormed(r.value) && r.value.provider == GitHub
    ensures MatchGithubUrl(StripShorthandPrefix(s), LiteralDot).Some? ==> r.Some?
  {
    ResolveRepoString(s, LiteralDot)
  }

  // ---------------------------------------------------------------------------
  // Bare specifiers and the shorthand prefix

  /** A bare `org/repo` of two segments resolves to exactly those names, under either reading of the dots. */
  lemma {:induction false} BareSpecifierResolves(org: string, repo: string, dots: DotReading)
    requires IsSegment(org) && IsSegment(repo)
    ensures ResolveRepoString(org + "/" + repo, dots) == Some(VcsIdentity(org, repo, GitHub))
  {
    var s := org + "/" + repo;
    if |s| > 6 {
      if 6 < |org| {
        assert s[6] == org[6];
      } else if 6 > |org| {
        assert s[6] == repo[6 - |org| - 1];
      }
      assert s[6] != ShorthandPrefix[6];
    }
    assert StripShorthandPrefix(s) == s;
    BareSpecifierHasNoUrl(org, repo, dots);
    SpecifierOfSegments(org, repo);
  }

  /** `github:` is removed once: a prefixed string resolves like the string without it. */
  lemma {:induction false} ShorthandStripped(s: string, dots: DotReading)
    requires !HasShorthandPrefix(s)
    ensures ResolveRepoString(ShorthandPrefix + s, dots) == ResolveRepoString(s, dots)
  {
    assert (ShorthandPrefix + s)[|ShorthandPrefix|..] == s;
  }

  /**
   * ... and only once: when what follows the prefix starts with `github:` again
   * and is not a hosting URL, the second prefix stays and blocks `repoSpecifier`
   * at its `:`.
   */
  lemma {:induction false} ShorthandStrippedOnce(s: string, dots: DotReading)
    requires HasShorthandPrefix(s) && MatchGithubUrl(s, dots).None?
    ensures ResolveRepoString(ShorthandPrefix + s, dots) == None
  {
    assert (ShorthandPrefix + s)[|ShorthandPrefix|..] == s;
    assert s[..7] == ShorthandPrefix;
    forall q | 0 <= q < 6
      ensures IsSegmentChar(s[q])
    {
      assert s[q] == ShorthandPrefix[q];
    }
    SegmentSpanIs(s, 0, 6);
  }

  // ---------------------------------------------------------------------------
  // Hosting URLs

  /** A string of the shape `<p>github.com<sep><org>/<repo><suffix>`. */
  function HostedUrl(p: string, sep: char, org: string, repo: string, suffix: string): string {
    p + "github.com" + [sep] + org + "/" + repo + suffix
  }

  /** `repo` ends in four characters that the `.git` alternative accepts. */
  predicate EndsLikeGitSuffix(repo: string, dots: DotReading) {
    |repo| > 4 && GitTail(repo[|repo| - 4..], dots)
  }

  lemma {:induction false} ShorthandNeedsMention(s: string)
    requires HasShorthandPrefix(s)
    ensures MentionsGithubAt(s, 0) && s[6] == ':'
  {
    assert s[..7] == ShorthandPrefix;
    assert s[0..6] == s[..7][..6];
  }

  /** Where each part of a hosted URL sits. */
  lemma {:induction false} HostedUrlLayout(p: string, sep: char, org: string, repo: string, suffix: string)
    ensures var s := HostedUrl(p, sep, org, repo, suffix);
      var m := |p| + 11 + |org| + 1;
      && |s| == m + |repo| + |suffix|
      && s[..|p|] == p
      && s[|p|..|p| + 10] == "github.com"
      && s[|p| + 10] == sep
      && s[|p| + 11..|p| + 11 + |org|] == org
      && s[m - 1] == '/'
      && s[m..m + |repo|] == repo
      && s[m + |repo|..] == suffix
      && s[|p| + 11..m + |repo|] == org + "/" + repo
  {
    var s := HostedUrl(p, sep, org, repo, suffix);
    var a := p + "github.com";
    var b := a + [sep];
    var c := b + org;
    var d := c + "/";
    var e := d + repo;
    assert s == e + suffix;
    assert s[..|e|] == e;
    assert e[..|d|] == d;
    assert d[..|c|] == c;
    assert c[..|b|] == b;
    assert b[..|a|] == a;
    assert s[|p| + 11..|e|] == org + "/" + repo by {
      assert s[|p| + 11..|e|] == e[|b|..];
      assert e[|b|..] == d[|b|..] + repo;
      assert d[|b|..] == c[|b|..] + "/";
      assert c[|b|..] == org;
    }
  }

  /** With the host at `|p|`, the match there captures exactly `org/repo`. */
  lemma {:induction false} CaptureAtHost(p: string, sep: char, org: string, repo: string, suffix: string, dots: DotReading)
    requires IsSeparator(sep) && IsSegment(org) && IsSegment(repo)
    requires TailMatches(suffix, dots) && LazyCaptureIsWhole(repo, suffix, dots)
    ensures UrlCaptureAt(HostedUrl(p, sep, org, repo, suffix), |p|, dots) == Some(org + "/" + repo)
  {
    HostedUrlLayout(p, sep, org, repo, suffix);
    CaptureOfLayout(HostedUrl(p, sep, org, repo, suffix), |p|, org, repo, dots);
  }

  /**
   * The general statement behind the URL lemmas: when `p` does not mention
   * `github`, the leftmost match is the host after `p`, and when the lazy capture
   * takes the whole of `repo`, the URL resolves to `org` and `repo`.
   */
  lemma {:induction false} HostedUrlResolvesWith(p: string, sep: char, org: string, repo: string, suffix: string, dots: DotReading)
    requires NoGithubMention(p) && IsSeparator(sep) && IsSegment(org) && IsSegment(repo)
    requires TailMatches(suffix, dots) && LazyCaptureIsWhole(repo, suffix, dots)
    ensures ResolveRepoString(HostedUrl(p, sep, org, repo, suffix), dots) == Some(VcsIdentity(org, repo, GitHub))
  {
    var s := HostedUrl(p, sep, org, repo, suffix);
    var rest := "github.com" + [sep] + org + "/" + repo + suffix;
    assert s == p + rest && rest[0] == 'g';
    if HasShorthandPrefix(s) {
      ShorthandNeedsMention(s);
      if |p| > 0 {
        NoMentionInsidePrefix(p, rest, 0);
      }
    }
    assert StripShorthandPrefix(s) == s;
    NoCaptureInPrefix(p, rest, dots);
    CaptureAtHost(p, sep, org, repo, suffix, dots);
    LeftmostMatch(s, |p|, dots);
    SpecifierOfSegments(org, repo);
  }

  /** A non-empty accepted suffix (`.git`-like or `/...`) cannot be reached by stopping early. */
  lemma {:induction false} NonEmptyTailKeepsWhole(repo: string, suffix: string, dots: DotReading)
    requires IsSegment(repo) && TailMatches(suffix, dots) && suffix != []
    ensures LazyCaptureIsWhole(repo, suffix, dots)
  {
    forall n | 1 <= n < |repo|
      ensures !TailMatches(repo[n..] + suffix, dots)
    {
      var t := repo[n..] + suffix;
      assert t[0] == repo[n];
      if |t| == 4 {
        var q := |repo| - n;
        assert t[q] == suffix[0];
        assert t[1..][q - 1] == t[q];
      }
    }
  }

  /** With nothing after the name, the lazy capture stops early only on a `.git`-like ending. */
  lemma {:induction false} EmptyTailKeepsWhole(repo: string, dots: DotReading)
    requires IsSegment(repo) && !EndsLikeGitSuffix(repo, dots)
    ensures LazyCaptureIsWhole(repo, "", dots)
  {
    forall n | 1 <= n < |repo|
      ensures !TailMatches(repo[n..] + "", dots)
    {
      var t := repo[n..] + "";
      assert t[0] == repo[n];
      if |t| == 4 {
        assert t == repo[|repo| - 4..];
      }
    }
  }

  /**
   * A string holding `github.com`, a `:` or `/`, then `org/repo` resolves to that
   * `org/repo`, followed by nothing, by a `.git` suffix, or by further path segments;
   * with nothing after it the name must not itself end like `.git` under the
   * reading `dots`.
   */
  lemma {:induction false} HostedUrlResolves(p: string, sep: char, org: string, repo: string, suffix: string, dots: DotReading)
    requires NoGithubMention(p) && IsSeparator(sep) && IsSegment(org) && IsSegment(repo)
    requires TailMatches(suffix, dots)
    requires suffix == [] ==> !EndsLikeGitSuffix(repo, dots)
    ensures ResolveRepoString(HostedUrl(p, sep, org, repo, suffix), dots) == Some(VcsIdentity(org, repo, GitHub))
  {
    if suffix == [] {
      EmptyTailKeepsWhole(repo, dots);
      assert repo + suffix == repo + "";
    } else {
      NonEmptyTailKeepsWhole(repo, suffix, dots);
    }
    HostedUrlResolvesWith(p, sep, org, repo, suffix, dots);
  }

  /**
   * As written, a repository name that ends in any character followed by `git`
   * loses its last four characters: the lazy capture stops where the unescaped
   * `.git` alternative can take the rest.
   */
  lemma {:induction false} GitLikeNameTruncated(p: string, sep: char, org: string, repo: string)
    requires NoGithubMention(p) && IsSeparator(sep) && IsSegment(org) && IsSegment(repo)
    requires EndsLikeGitSuffix(repo, AnyCharacter)
    ensures ParseRepoString(HostedUrl(p, sep, org, repo, "")) == Some(VcsIdentity(org, repo[..|repo| - 4], GitHub))
  {
    GitLikeSplit(repo);
    var stem := repo[..|repo| - 4];
    var tail := repo[|repo| - 4..];
    HostedUrlResolvesWith(p, sep, org, stem, tail, AnyCharacter);
    SplitRepoName(p, sep, org, stem, tail);
  }

  /** The name splits into a segment and a four-character `.git`-like remainder that stops the lazy capture. */
  lemma {:induction false} GitLikeSplit(repo: string)
    requires IsSegment(repo) && EndsLikeGitSuffix(repo, AnyCharacter)
    ensures IsSegment(repo[..|repo| - 4]) && TailMatches(repo[|repo| - 4..], AnyCharacter)
    ensures LazyCaptureIsWhole(repo[..|repo| - 4], repo[|repo| - 4..], AnyCharacter)
    ensures repo[..|repo| - 4] + repo[|repo| - 4..] == repo
  {
    var stem := repo[..|repo| - 4];
    var tail := repo[|repo| - 4..];
    assert IsSegment(stem) by {
      forall q | 0 <= q < |stem|
        ensures IsSegmentChar(stem[q])
      {
        assert stem[q] == repo[q];
      }
    }
    NonEmptyTailKeepsWhole(stem, tail, AnyCharacter);
  }

  /** Moving the end of the repository name into the suffix leaves the URL unchanged. */
  lemma {:induction false} SplitRepoName(p: string, sep: char, org: string, stem: string, tail: string)
    ensures HostedUrl(p, sep, org, stem, tail) == HostedUrl(p, sep, org, stem + tail, "")
  {
    var x := p + "github.com" + [sep] + org + "/";
    assert x + stem + tail == x + (stem + tail) + "";
  }

  /** The URL of the `isomorphic-git` repository, built from its parts. */
  lemma {:induction false} IsomorphicGitUrl()
    ensures HostedUrl("https://", '/', "isomorphic-git", "isomorphic-git", "")
         == "https://github.com/isomorphic-git/isomorphic-git"
  {
    assert "https://" + "github.com" + ['/'] == "https://github.com/";
    assert "https://github.com/" + "isomorphic-git" + "/" == "https://github.com/isomorphic-git/";
    assert "https://github.com/isomorphic-git/" + "isomorphic-git" + "" == "https://github.com/isomorphic-git/isomorphic-git";
  }

  /** `isomorphic-git` is a segment ending in `-git`: `.git`-like as written, not with a literal dot. */
  lemma {:induction false} IsomorphicGitName()
    ensures IsSegment("isomorphic-git") && NoGithubMention("https://")
    ensures EndsLikeGitSuffix("isomorphic-git", AnyCharacter) && !EndsLikeGitSuffix("isomorphic-git", LiteralDot)
    ensures "isomorphic-git"[..10] == "isomorphic"
  {
    MissingLetterMeansNoMention("https://", 0);
  }

  /** An instance: the repository `isomorphic-git` is read as `isomorphic`. */
  lemma {:induction false} IsomorphicGitTruncated()
    ensures ParseRepoString("https://github.com/isomorphic-git/isomorphic-git")
         == Some(VcsIdentity("isomorphic-git", "isomorphic", GitHub))
  {
    IsomorphicGitUrl();
    IsomorphicGitName();
    GitLikeNameTruncated("https://", '/', "isomorphic-git", "isomorphic-git");
  }

  /** With escaped dots a name ends like `.git` exactly when it ends in a literal `.git`. */
  lemma {:induction false} LiteralGitSuffix(repo: string)
    ensures EndsLikeGitSuffix(repo, LiteralDot) <==> |repo| > 4 && repo[|repo| - 4..] == ".git"
  {
    if |repo| > 4 {
      var t := repo[|repo| - 4..];
      if GitTail(t, LiteralDot) {
        assert t == ".git";
      }
    }
  }

  /**
   * With escaped dots every name is kept whole unless it ends in a literal `.git`
   * that nothing follows, which is the suffix the pattern was written to drop.
   */
  lemma {:induction false} CorrectedHostedUrlResolves(p: string, sep: char, org: string, repo: string, suffix: string)
    requires NoGithubMention(p) && IsSeparator(sep) && IsSegment(org) && IsSegment(repo)
    requires TailMatches(suffix, LiteralDot)
    requires suffix == [] ==> !(|repo| > 4 && repo[|repo| - 4..] == ".git")
    ensures CorrectedParseRepoString(HostedUrl(p, sep, org, repo, suffix)) == Some(VcsIdentity(org, repo, GitHub))
  {
    LiteralGitSuffix(repo);
    HostedUrlResolves(p, sep, org, repo, suffix, LiteralDot);
  }

  /** The corrected reading keeps `isomorphic-git` whole. */
  lemma {:induction false} IsomorphicGitKeptWhenCorrected()
    ensures CorrectedParseRepoString("https://github.com/isomorphic-git/isomorphic-git")
         == Some(VcsIdentity("isomorphic-git", "isomorphic-git", GitHub))
  {
    IsomorphicGitUrl();
    IsomorphicGitName();
    HostedUrlResolves("https://", '/', "isomorphic-git", "isomorphic-git", "", LiteralDot);
  }

  /** `github:org/repo` resolves to `org` and `repo`. */
  lemma {:induction false} ShorthandSpecifierResolves(org: string, repo: string, dots: DotReading)
    requires IsSegment(org) && IsSegment(repo)
    ensures ResolveRepoString("github:" + org + "/" + repo, dots) == Some(VcsIdentity(org, repo, GitHub))
  {
    assert "github:" + org + "/" + repo == ShorthandPrefix + (org + "/" + repo);
    if HasShorthandPrefix(org + "/" + repo) {
      ShorthandNeedsMention(org + "/" + repo);
      SlashIsOnlySeparator(org, repo, 6);
    }
    ShorthandStripped(org + "/" + repo, dots);
    BareSpecifierResolves(org, repo, dots);
  }

  /** The only non-segment character of `org/repo` is its slash. */
  lemma {:induction false} SlashIsOnlySeparator(org: string, repo: string, q: nat)
    requires IsSegment(org) && IsSegment(repo) && q < |org + "/" + repo|
    ensures IsSegmentChar((org + "/" + repo)[q]) || (org + "/" + repo)[q] == '/'
  {
    var s := org + "/" + repo;
    if q < |org| {
      assert s[q] == org[q];
    } else if q > |org| {
      assert s[q] == repo[q - |org| - 1];
    }
  }

  /** The SSH form `git+ssh://git@github.com/org/repo.git` resolves to `org` and `repo`. */
  lemma {:induction false} SshUrlResolves(org: string, repo: string, dots: DotReading)
    requires IsSegment(org) && IsSegment(repo)
    ensures ResolveRepoString("git+ssh://git@github.com/" + org + "/" + repo + ".git", dots) == Some(VcsIdentity(org, repo, GitHub))
  {
    SshUrlParts(org, repo, dots);
    HostedUrlResolves("git+ssh://git@", '/', org, repo, ".git", dots);
  }

  lemma {:induction false} SshUrlParts(org: string, repo: string, dots: DotReading)
    ensures NoGithubMention("git+ssh://git@") && TailMatches(".git", dots)
    ensures HostedUrl("git+ssh://git@", '/', org, repo, ".git") == "git+ssh://git@github.com/" + org + "/" + repo + ".git"
  {
    MissingLetterMeansNoMention("git+ssh://git@", 4);
    assert "git+ssh://git@" + "github.com" + ['/'] == "git+ssh://git@github.com/";
  }

  /**
   * The HTTPS form `https://github.com/org/repo` resolves to `org` and `repo`, for a
   * name that does not end like `.git` under the reading `dots` (see
   * `GitLikeNameTruncated` for those names as written).
   */
  lemma {:induction false} HttpsUrlResolves(org: string, repo: string, dots: DotReading)
    requires IsSegment(org) && IsSegment(repo) && !EndsLikeGitSuffix(repo, dots)
    ensures ResolveRepoString("https://github.com/" + org + "/" + repo, dots) == Some(VcsIdentity(org, repo, GitHub))
  {
    HttpsUrlParts(org, repo);
    HostedUrlResolves("https://", '/', org, repo, "", dots);
  }

  lemma {:induction false} HttpsUrlParts(org: string, repo: string)
    ensures NoGithubMention("https://")
    ensures HostedUrl("https://", '/', org, repo, "") == "https://github.com/" + org + "/" + repo
  {
    MissingLetterMeansNoMention("https://", 0);
    assert "https://" + "github.com" + ['/'] == "https://github.com/";
    var x := "https://github.com/" + org + "/" + repo;
    assert x + "" == x;
  }

  // ---------------------------------------------------------------------------
  // Unrecognised strings

  /** A string with no `github` in it and not of the bare `org/repo` shape is unresolved. */
  lemma {:induction false} UnrecognisedIsUnresolved(s: string, dots: DotReading)
    requires NoGithubMention(s) && MatchRepoSpecifier(s).None?
    ensures ResolveRepoString(s, dots) == None
  {
    if HasShorthandPrefix(s) {
      ShorthandNeedsMention(s);
    }
    NoMentionNoUrl(s, dots);
  }

  /** `https://gitlab.com/foo/bar` has no `u`, and its first run `https` is followed by `:`, not `/`. */
  lemma {:induction false} OtherHostShape()
    ensures NoGithubMention("https://gitlab.com/foo/bar")
    ensures MatchRepoSpecifier("https://gitlab.com/foo/bar").None?
  {
    var s := "https://gitlab.com/foo/bar";
    MissingLetterMeansNoMention(s, 4);
    SegmentSpanIs(s, 0, 5);
  }

  /** Another host is not GitHub: `https://gitlab.com/foo/bar` is unresolved. */
  lemma {:induction false} OtherHostUnresolved(dots: DotReading)
    ensures ResolveRepoString("https://gitlab.com/foo/bar", dots) == None
  {
    OtherHostShape();
    UnrecognisedIsUnresolved("https://gitlab.com/foo/bar", dots);
  }

  // ---------------------------------------------------------------------------
  // The manifest's `repository` field

  /** The shape of the `url` member of an object-valued `repository` field. */
  datatype UrlMember = NoUrl | UrlText(text: string) | UrlOther

  /** The `repository` value read from the manifest, by its JavaScript type. */
  datatype RepositoryField =
    | Undefined
    | Null
    | Boolean(b: bool)
    | Number(n: int)
    | Text(text: string)
    | Object(url: UrlMember)

  /** JavaScript falsiness of the field (`!repository`). */
  predicate IsFalsy(field: RepositoryField) {
    match field
    case Undefined => true
    case Null => true
    case Boolean(b) => !b
    case Number(n) => n == 0
    case Text(t) => t == ""
    case Object(_) => false
  }

  /** The falsy values are exactly `undefined`, `null`, `false`, `0` and `""`; every object is truthy. */
  lemma {:induction false} FalsyValues(field: RepositoryField)
    ensures IsFalsy(field) <==>
      field == Undefined || field == Null || field == Boolean(false) || field == Number(0) || field == Text("")
  {
  }

  /** The empty string is not an identity, so the falsy guard and the parser agree on it. */
  lemma {:induction false} EmptyStringUnresolved(dots: DotReading)
    ensures ResolveRepoString("", dots) == None
  {
    assert UrlCaptureAt("", 0, dots).None?;
  }

  /**
   * `getPackageVCSDetails` on the manifest's `repository` value: a string is parsed,
   * an object is parsed through a string `url`, and every other shape (absent,
   * empty, null, a number, a boolean, an object without a string `url`) gives none.
   * `dots` is the reading of `githubURL`: `AnyCharacter` is the program as written,
   * `LiteralDot` the corrected pattern.
   */
  function GetPackageVcsDetails(field: RepositoryField, dots: DotReading): (r: Option<VcsIdentity>)
    ensures r.Some? ==> WellFormed(r.value)
    ensures IsFalsy(field) ==> r.None?
    ensures !IsFalsy(field) && field.Text? ==> r == ResolveRepoString(field.text, dots)
    ensures field.Object? && field.url.UrlText? ==> r == ResolveRepoString(field.url.text, dots)
    ensures !field.Text? && !(field.Object? && field.url.UrlText?) ==> r.None?
  {
    match RepositoryString(field)
    case None => None
    case Some(t) => ResolveRepoString(t, dots)
  }

  /** The string `getPackageVCSDetails` hands to the parser, if the field's shape gives one. */
  function RepositoryString(field: RepositoryField): (r: Option<string>)
    ensures IsFalsy(field) ==> r.None?
    ensures !IsFalsy(field) && field.Text? ==> r == Some(field.text)
    ensures field.Object? && field.url.UrlText? ==> r == Some(field.url.text)
    ensures !field.Text? && !(field.Object? && field.url.UrlText?) ==> r.None?
  {
    if IsFalsy(field) then None
    else
      match field
      case Text(t) => Some(t)
      case Object(UrlText(u)) => Some(u)
      case _ => None
  }

  /** Every string field is parsed: the falsy guard turns away only `""`, which the parser rejects too. */
  lemma {:induction false} StringFieldParsed(t: string, dots: DotReading)
    ensures GetPackageVcsDetails(Text(t), dots) == ResolveRepoString(t, dots)
  {
    if t == "" {
      EmptyStringUnresolved(dots);
    }
  }

  // ---------------------------------------------------------------------------
  // Manifest scenarios, under either reading of the dots

  lemma {:induction false} ReactParts()
    ensures IsSegment("facebook") && IsSegment("react")
    ensures "github:" + "facebook" + "/" + "react" == "github:facebook/react"
  {
  }

  /** `"repository": "github:facebook/react"` names `facebook/react` on GitHub. */
  lemma {:induction false} ShorthandFieldScenario(dots: DotReading)
    ensures GetPackageVcsDetails(Text("github:facebook/react"), dots) == Some(VcsIdentity("facebook", "react", GitHub))
  {
    ReactParts();
    ShorthandSpecifierResolves("facebook", "react", dots);
    StringFieldParsed("github:facebook/react", dots);
  }

  lemma {:induction false} FooBarParts(dots: DotReading)
    ensures IsSegment("foo") && IsSegment("bar")
    ensures NoGithubMention("git+https://") && TailMatches(".git", dots)
    ensures HostedUrl("git+https://", '/', "foo", "bar", ".git") == "git+https://github.com/foo/bar.git"
  {
    MissingLetterMeansNoMention("git+https://", 4);
    assert "git+https://" + "github.com" + ['/'] == "git+https://github.com/";
  }

  /** `"repository": {"url": "git+https://github.com/foo/bar.git"}` names `foo/bar` on GitHub. */
  lemma {:induction false} UrlObjectFieldScenario(dots: DotReading)
    ensures GetPackageVcsDetails(Object(UrlText("git+https://github.com/foo/bar.git")), dots) == Some(VcsIdentity("foo", "bar", GitHub))
  {
    FooBarParts(dots);
    HostedUrlResolves("git+https://", '/', "foo", "bar", ".git", dots);
  }

  /** `"repository": "https://gitlab.com/foo/bar"` names nothing. */
  lemma {:induction false} OtherHostFieldScenario(dots: DotReading)
    ensures GetPackageVcsDetails(Text("https://gitlab.com/foo/bar"), dots) == None
  {
    OtherHostUnresolved(dots);
    StringFieldParsed("https://gitlab.com/foo/bar", dots);
  }
}
