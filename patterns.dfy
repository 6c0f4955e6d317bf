/**
 * The two regular expressions of the repository-identity resolver, read the way
 * JavaScript reads them (no flags):
 *
 *   repoSpecifier   ^([\w.-]+)\/([\w.-]+)$
 *   githubURL       github.com(:|\/)([\w.-]+\/[\w.-]+?)(.git|\/.*)?$
 *
 * `\w` is the ASCII class [A-Za-z0-9_]; an unescaped `.` outside a class is any
 * character except a line terminator; `$` is the end of the input. `githubURL` is
 * unanchored, so a match is the one at the leftmost start position, and within it
 * the backtracking order decides the captures.
 */
module RepoPatterns {
  import opened Results

  /** `\w`: an ASCII letter, digit or underscore. */
  predicate IsWordChar(c: char) {
    ('A' <= c <= 'Z') || ('a' <= c <= 'z') || ('0' <= c <= '9') || c == '_'
  }

  /** The class `[\w.-]` both patterns use for an organisation or repository name. */
  predicate IsSegmentChar(c: char) {
    IsWordChar(c) || c == '.' || c == '-'
  }

  /** The characters an unescaped `.` does not match. */
  predicate IsLineTerminator(c: char) {
    c == '\n' || c == '\r' || c == '\U{2028}' || c == '\U{2029}'
  }

  /** The alternatives `(:|\/)` between the host and the organisation. */
  predicate IsSeparator(c: char) {
    c == ':' || c == '/'
  }

  /** `[\w.-]+` matching the whole of `s`. */
  predicate IsSegment(s: string) {
    |s| > 0 && forall q :: 0 <= q < |s| ==> IsSegmentChar(s[q])
  }

  /** The two captures of `repoSpecifier`. */
  datatype RepoSpec = RepoSpec(org: string, repo: string)

  /** Length of the longest run of `[\w.-]` characters starting at `i`. */
  function SegmentSpan(s: string, i: nat): (n: nat)
    requires i <= |s|
    ensures i + n <= |s|
    decreases |s| - i
  {
    if i < |s| && IsSegmentChar(s[i]) then 1 + SegmentSpan(s, i + 1) else 0
  }

  /** The span is a run of segment characters that stops at the end of `s` or before another character. */
  lemma {:induction false} SegmentSpanRun(s: string, i: nat)
    requires i <= |s|
    ensures forall q :: i <= q < i + SegmentSpan(s, i) ==> IsSegmentChar(s[q])
    ensures i + SegmentSpan(s, i) == |s| || !IsSegmentChar(s[i + SegmentSpan(s, i)])
    decreases |s| - i
  {
    if i < |s| && IsSegmentChar(s[i]) {
      SegmentSpanRun(s, i + 1);
    }
  }

  /** A run that ends at the end of `s` or before a non-segment character is the span. */
  lemma {:induction false} SegmentSpanIs(s: string, i: nat, n: nat)
    requires i + n <= |s|
    requires forall q :: i <= q < i + n ==> IsSegmentChar(s[q])
    requires i + n == |s| || !IsSegmentChar(s[i + n])
    ensures SegmentSpan(s, i) == n
    decreases n
  {
    if n > 0 {
      SegmentSpanIs(s, i + 1, n - 1);
    }
  }

  /** A segment sitting inside `s` at `i` makes that stretch of `s` segment characters. */
  lemma {:induction false} SegmentInside(s: string, i: nat, seg: string)
    requires IsSegment(seg) && i + |seg| <= |s| && s[i..i + |seg|] == seg
    ensures forall q :: i <= q < i + |seg| ==> IsSegmentChar(s[q])
  {
    forall q | i <= q < i + |seg|
      ensures IsSegmentChar(s[q])
    {
      assert s[q] == s[i..i + |seg|][q - i];
    }
  }

  /**
   * `repoSpecifier` applied to `s`. The first `[\w.-]+` cannot stop before the end
   * of its run (the next character must be `/`, which the class excludes), so the
   * match is decided by the span from the start and the span after the slash.
   */
  function MatchRepoSpecifier(s: string): (r: Option<RepoSpec>)
    ensures r.Some? ==> IsSegment(r.value.org) && IsSegment(r.value.repo)
    ensures r.Some? ==> s == r.value.org + "/" + r.value.repo
  {
    var k := SegmentSpan(s, 0);
    if 0 < k && k + 1 < |s| && s[k] == '/' && SegmentSpan(s, k + 1) == |s| - (k + 1) then
      SegmentSpanRun(s, 0);
      SegmentSpanRun(s, k + 1);
      RunIsSegment(s, 0, k);
      RunIsSegment(s, k + 1, |s| - (k + 1));
      assert s == s[..k] + "/" + s[k + 1..];
      Some(RepoSpec(s[..k], s[k + 1..]))
    else
      None
  }

  /** Every `org/repo` made of two segments matches `repoSpecifier` with exactly those captures. */
  lemma {:induction false} SpecifierOfSegments(org: string, repo: string)
    requires IsSegment(org) && IsSegment(repo)
    ensures MatchRepoSpecifier(org + "/" + repo) == Some(RepoSpec(org, repo))
  {
    var s := org + "/" + repo;
    SegmentSpanIs(s, 0, |org|);
    SegmentSpanIs(s, |org| + 1, |repo|);
    assert s[..|org|] == org;
    assert s[|org| + 1..] == repo;
  }

  /** How the pattern reads an unescaped `.`: as written (any character) or as a literal dot. */
  datatype DotReading = AnyCharacter | LiteralDot

  /**
   * One character of the pattern against one character of the input. Without the
   * `u` flag an unescaped `.` consumes one UTF-16 code unit, so it never takes a
   * character outside the Basic Multilingual Plane (two units) when a literal
   * follows it, as it does in both places it occurs here.
   */
  predicate PatternCharMatches(p: char, c: char, dots: DotReading) {
    if p == '.' && dots == AnyCharacter then !IsLineTerminator(c) && c < '\U{10000}' else c == p
  }

  /** The six letters `github` occur in `s` at `i`. */
  predicate MentionsGithubAt(s: string, i: nat) {
    i + 6 <= |s|
    && s[i] == 'g' && s[i + 1] == 'i' && s[i + 2] == 't' && s[i + 3] == 'h' && s[i + 4] == 'u' && s[i + 5] == 'b'
  }

  /** The host part `github.com` of `githubURL` (its dot unescaped) matches `s` at `i`. */
  predicate HostAt(s: string, i: nat, dots: DotReading) {
    MentionsGithubAt(s, i) && i + 10 <= |s|
    && PatternCharMatches('.', s[i + 6], dots) && s[i + 7] == 'c' && s[i + 8] == 'o' && s[i + 9] == 'm'
  }

  /** The literal text `github.com` matches the host part, whichever way dots are read. */
  lemma {:induction false} HostTextMatches(s: string, i: nat, dots: DotReading)
    requires i + 10 <= |s| && s[i..i + 10] == "github.com"
    ensures HostAt(s, i, dots)
  {
    forall q | 0 <= q < 10
      ensures s[i + q] == "github.com"[q]
    {
      assert s[i..i + 10][q] == s[i + q];
    }
  }

  /** The alternative `.git` (its dot unescaped) matches all of `t`. */
  predicate GitTail(t: string, dots: DotReading) {
    |t| == 4 && PatternCharMatches('.', t[0], dots) && t[1] == 'g' && t[2] == 'i' && t[3] == 't'
  }

  /** An unescaped `.` does not take a character of two UTF-16 units: neither `\U{1F600}git` nor `github\U{1F600}com` matches. */
  lemma {:induction false} AstralCharacterIsNotDot()
    ensures !TailMatches("\U{1F600}git", AnyCharacter)
    ensures !HostAt("github\U{1F600}com", 0, AnyCharacter)
  {
  }

  /** `(.git|\/.*)?$` consumes exactly the remainder `t`. */
  predicate TailMatches(t: string, dots: DotReading) {
    t == []
    || GitTail(t, dots)
    || (0 < |t| && t[0] == '/' && forall q :: 1 <= q < |t| ==> !IsLineTerminator(t[q]))
  }

  /** The lazy `[\w.-]+?` stopping after `n` characters from `m` leaves a remainder the tail accepts. */
  predicate LazyStopsAt(s: string, m: nat, n: nat, dots: DotReading) {
    m + n <= |s| && TailMatches(s[m + n..], dots)
  }

  /**
   * The lazy quantifier `[\w.-]+?` starting at `m`, trying lengths `n`, `n + 1`, ...
   * up to `max` (the run of segment characters): the first length after which the
   * rest of the pattern matches.
   */
  function LazyRepoLength(s: string, m: nat, n: nat, max: nat, dots: DotReading): (r: Option<nat>)
    requires 1 <= n && m + max <= |s|
    ensures r.Some? ==> n <= r.value <= max
    decreases max + 1 - n
  {
    if n > max then None
    else if LazyStopsAt(s, m, n, dots) then Some(n)
    else LazyRepoLength(s, m, n + 1, max, dots)
  }

  /** The lazy length is the first one that lets the tail match: it does, and no shorter one does. */
  lemma {:induction false} LazyRepoLengthFirst(s: string, m: nat, n: nat, max: nat, dots: DotReading)
    requires 1 <= n && m + max <= |s|
    ensures var r := LazyRepoLength(s, m, n, max, dots);
      && (r.Some? ==> LazyStopsAt(s, m, r.value, dots))
      && forall k :: n <= k <= max && (r.None? || k < r.value) ==> !LazyStopsAt(s, m, k, dots)
    decreases max + 1 - n
  {
    if n <= max && !LazyStopsAt(s, m, n, dots) {
      LazyRepoLengthFirst(s, m, n + 1, max, dots);
    }
  }

  /** The organisation part `[\w.-]+\/` of the capture from `j`: its length, when a `/` ends the run. */
  function OrgLengthAt(s: string, j: nat): (r: Option<nat>)
    requires j <= |s|
    ensures r.Some? ==> 0 < r.value && j + r.value < |s| && s[j + r.value] == '/'
  {
    var k := SegmentSpan(s, j);
    if 0 < k && j + k < |s| && s[j + k] == '/' then Some(k) else None
  }

  /** The repository part `[\w.-]+?` of the capture from `m`: the length the lazy quantifier settles on. */
  function RepoLengthAt(s: string, m: nat, dots: DotReading): (r: Option<nat>)
    requires m <= |s|
    ensures r.Some? ==> 0 < r.value && m + r.value <= |s|
  {
    LazyRepoLength(s, m, 1, SegmentSpan(s, m), dots)
  }

  /**
   * `githubURL` with its match starting at `i`: the text of its second group. The
   * greedy organisation run has no shorter alternative (it must be followed by `/`),
   * and the repository part is the shortest one the tail accepts.
   */
  function UrlCaptureAt(s: string, i: nat, dots: DotReading): (r: Option<string>)
    ensures r.Some? ==> HostAt(s, i, dots) && i + 11 + |r.value| <= |s|
    ensures r.Some? ==> IsSeparator(s[i + 10]) && r.value == s[i + 11..i + 11 + |r.value|]
  {
    if HostAt(s, i, dots) && i + 11 <= |s| && IsSeparator(s[i + 10]) then
      match OrgLengthAt(s, i + 11)
      case None => None
      case Some(k) =>
        match RepoLengthAt(s, i + 11 + k + 1, dots)
        case None => None
        case Some(n) => Some(s[i + 11..i + 11 + k + 1 + n])
    else
      None
  }

  /** A run of segment characters, taken out of `s`, is a segment. */
  lemma {:induction false} RunIsSegment(s: string, i: nat, n: nat)
    requires 0 < n && i + n <= |s| && forall q :: i <= q < i + n ==> IsSegmentChar(s[q])
    ensures IsSegment(s[i..i + n])
  {
    var t := s[i..i + n];
    forall q | 0 <= q < |t|
      ensures IsSegmentChar(t[q])
    {
      assert t[q] == s[i + q];
    }
  }

  /** Whatever `githubURL` captures is accepted by `repoSpecifier`. */
  lemma {:induction false} CaptureIsSpecifier(s: string, i: nat, dots: DotReading)
    requires UrlCaptureAt(s, i, dots).Some?
    ensures MatchRepoSpecifier(UrlCaptureAt(s, i, dots).value).Some?
  {
    var j := i + 11;
    var k := OrgLengthAt(s, j).value;
    assert k == SegmentSpan(s, j);
    var m := j + k + 1;
    var n := RepoLengthAt(s, m, dots).value;
    assert n <= SegmentSpan(s, m);
    SegmentSpanRun(s, j);
    SegmentSpanRun(s, m);
    RunIsSegment(s, j, k);
    RunIsSegment(s, m, n);
    var c := s[j..m + n];
    assert c == s[j..j + k] + "/" + s[m..m + n];
    assert UrlCaptureAt(s, i, dots).value == c;
    SpecifierOfSegments(s[j..j + k], s[m..m + n]);
  }

  /** The capture at `i` once the organisation length `k` and the repository length `n` are known. */
  lemma {:induction false} CaptureFromParts(s: string, i: nat, k: nat, n: nat, dots: DotReading)
    requires HostAt(s, i, dots) && i + 11 <= |s| && IsSeparator(s[i + 10])
    requires OrgLengthAt(s, i + 11) == Some(k) && RepoLengthAt(s, i + 11 + k + 1, dots) == Some(n)
    ensures UrlCaptureAt(s, i, dots) == Some(s[i + 11..i + 11 + k + 1 + n])
  {
  }

  /** No shorter repository part leaves a remainder that `(.git|\/.*)?$` accepts. */
  predicate LazyCaptureIsWhole(repo: string, suffix: string, dots: DotReading) {
    forall n :: 1 <= n < |repo| ==> !TailMatches(repo[n..] + suffix, dots)
  }

  /** The lazy repository part starting at `m` is the whole of `repo` when no shorter stop works. */
  lemma {:induction false} LazyTakesWhole(s: string, m: nat, repo: string, dots: DotReading)
    requires IsSegment(repo) && m + |repo| <= |s| && s[m..m + |repo|] == repo
    requires TailMatches(s[m + |repo|..], dots) && LazyCaptureIsWhole(repo, s[m + |repo|..], dots)
    ensures RepoLengthAt(s, m, dots) == Some(|repo|)
  {
    var suffix := s[m + |repo|..];
    SegmentInside(s, m, repo);
    var max := SegmentSpan(s, m);
    SegmentSpanRun(s, m);
    assert |repo| <= max;
    LazyRepoLengthFirst(s, m, 1, max, dots);
    forall k | 1 <= k < |repo|
      ensures !LazyStopsAt(s, m, k, dots)
    {
      assert s[m + k..] == repo[k..] + suffix by {
        assert s[m..] == s[m..m + |repo|] + suffix;
      }
    }
    assert LazyStopsAt(s, m, |repo|, dots);
  }

  /** The greedy organisation part starting at `j` is the whole of `org` when a slash follows it. */
  lemma {:induction false} OrgTakesWhole(s: string, j: nat, org: string)
    requires IsSegment(org) && j + |org| < |s|
    requires s[j..j + |org|] == org && s[j + |org|] == '/'
    ensures OrgLengthAt(s, j) == Some(|org|)
  {
    SegmentInside(s, j, org);
    SegmentSpanIs(s, j, |org|);
  }

  /** Where the text `github.com`, a separator, `org/` and `repo` sit in `s` from `h`, the match at `h` captures `org/repo`. */
  lemma {:induction false} CaptureOfLayout(s: string, h: nat, org: string, repo: string, dots: DotReading)
    requires IsSegment(org) && IsSegment(repo)
    requires h + 11 + |org| + 1 + |repo| <= |s|
    requires s[h..h + 10] == "github.com" && IsSeparator(s[h + 10])
    requires s[h + 11..h + 11 + |org|] == org && s[h + 11 + |org|] == '/'
    requires s[h + 11 + |org| + 1..h + 11 + |org| + 1 + |repo|] == repo
    requires TailMatches(s[h + 11 + |org| + 1 + |repo|..], dots)
    requires LazyCaptureIsWhole(repo, s[h + 11 + |org| + 1 + |repo|..], dots)
    ensures UrlCaptureAt(s, h, dots) == Some(s[h + 11..h + 11 + |org| + 1 + |repo|])
  {
    HostTextMatches(s, h, dots);
    OrgTakesWhole(s, h + 11, org);
    LazyTakesWhole(s, h + 11 + |org| + 1, repo, dots);
    CaptureFromParts(s, h, |org|, |repo|, dots);
  }

  /** The leftmost start position at or after `i` where `githubURL` matches. */
  function FirstUrlMatch(s: string, i: nat, dots: DotReading): (r: Option<nat>)
    requires i <= |s|
    ensures r.Some? ==> i <= r.value <= |s| && UrlCaptureAt(s, r.value, dots).Some?
    ensures forall j :: i <= j <= |s| && (r.None? || j < r.value) ==> UrlCaptureAt(s, j, dots).None?
    decreases |s| - i
  {
    if UrlCaptureAt(s, i, dots).Some? then Some(i)
    else if i == |s| then None
    else FirstUrlMatch(s, i + 1, dots)
  }

  /** `s.match(githubURL)`: the second group of the leftmost match, if any. */
  function MatchGithubUrl(s: string, dots: DotReading): (r: Option<string>)
    ensures r.Some? ==> MatchRepoSpecifier(r.value).Some?
  {
    match FirstUrlMatch(s, 0, dots)
    case Some(i) =>
      CaptureIsSpecifier(s, i, dots);
      UrlCaptureAt(s, i, dots)
    case None => None
  }

  predicate NoGithubMention(s: string) {
    forall i :: 0 <= i < |s| ==> !MentionsGithubAt(s, i)
  }

  /** A string lacking one of the letters of `github` does not mention it. */
  lemma {:induction false} MissingLetterMeansNoMention(s: string, q: nat)
    requires q < 6 && forall k :: 0 <= k < |s| ==> s[k] != "github"[q]
    ensures NoGithubMention(s)
  {
    forall i | 0 <= i < |s|
      ensures !MentionsGithubAt(s, i)
    {
      if i + 6 <= |s| {
        assert s[i + q] != "github"[q];
      }
    }
  }

  /**
   * If `p` does not mention `github` and is followed by text starting with `g`,
   * no mention starts inside `p`: one straddling the boundary would need a `g` at
   * positions 1 to 5 of `github`.
   */
  lemma {:induction false} NoMentionInsidePrefix(p: string, rest: string, i: nat)
    requires NoGithubMention(p) && 0 < |rest| && rest[0] == 'g' && i < |p|
    ensures !MentionsGithubAt(p + rest, i)
  {
    var s := p + rest;
    if i + 6 <= |s| {
      if i + 6 <= |p| {
        assert !MentionsGithubAt(p, i);
      } else {
        assert s[|p|] == 'g';
      }
    }
  }

  /** No match of `githubURL` starts where `github` does not occur. */
  lemma {:induction false} NoMentionNoCapture(s: string, i: nat, dots: DotReading)
    requires !MentionsGithubAt(s, i)
    ensures UrlCaptureAt(s, i, dots).None?
  {
  }

  /** No match of `githubURL` starts inside a prefix `p` that does not mention `github`. */
  lemma {:induction false} NoCaptureInPrefix(p: string, rest: string, dots: DotReading)
    requires NoGithubMention(p) && 0 < |rest| && rest[0] == 'g'
    ensures forall i :: 0 <= i < |p| ==> UrlCaptureAt(p + rest, i, dots).None?
  {
    forall i | 0 <= i < |p|
      ensures UrlCaptureAt(p + rest, i, dots).None?
    {
      NoMentionInsidePrefix(p, rest, i);
      NoMentionNoCapture(p + rest, i, dots);
    }
  }

  /** A match at `h` with none before it is the leftmost one, and its capture is the result. */
  lemma {:induction false} LeftmostMatch(s: string, h: nat, dots: DotReading)
    requires h <= |s| && UrlCaptureAt(s, h, dots).Some?
    requires forall i :: 0 <= i < h ==> UrlCaptureAt(s, i, dots).None?
    ensures MatchGithubUrl(s, dots) == UrlCaptureAt(s, h, dots)
  {
    assert FirstUrlMatch(s, 0, dots) == Some(h);
  }

  /** A string that does not mention `github` has no `githubURL` match at all. */
  lemma {:induction false} NoMentionNoUrl(s: string, dots: DotReading)
    requires NoGithubMention(s)
    ensures MatchGithubUrl(s, dots).None?
  {
    forall j | 0 <= j <= |s|
      ensures UrlCaptureAt(s, j, dots).None?
    {
    }
  }

  /**
   * A bare `org/repo` has a single `/` and no `:`, while a `githubURL` match needs
   * a separator after the host and a second `/` inside the capture.
   */
  lemma {:induction false} BareSpecifierHasNoUrl(org: string, repo: string, dots: DotReading)
    requires IsSegment(org) && IsSegment(repo)
    ensures MatchGithubUrl(org + "/" + repo, dots).None?
  {
    var s := org + "/" + repo;
    forall q | 0 <= q < |s| && q != |org|
      ensures IsSegmentChar(s[q])
    {
      if q < |org| {
        assert s[q] == org[q];
      } else {
        assert s[q] == repo[q - |org| - 1];
      }
    }
    forall j | 0 <= j <= |s|
      ensures UrlCaptureAt(s, j, dots).None?
    {
      match UrlCaptureAt(s, j, dots)
      case None =>
      case Some(c) =>
        CaptureIsSpecifier(s, j, dots);
        match MatchRepoSpecifier(c)
        case None =>
        case Some(spec) =>
    }
  }
}
