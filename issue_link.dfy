/**
 * The issue-link composer of `createIssue.ts`: the prompt printed after a patch
 * is made (`maybePrintIssueCreationPrompt`) and the pre-filled issue link opened
 * on request (`openIssueCreationLink`). Console output, the browser hand-off and
 * the process exit are replaced by the values they would show, open or report.
 */
module IssueComposer {
  import opened Results
  import opened RepoPatterns
  import opened RepoIdentity

  /** The package managers the prompt tells apart. */
  datatype PackageManager = Npm | Yarn

  /** One dependency: its declared name, its location and its user-facing path specifier. */
  datatype PackageDetails = PackageDetails(name: string, path: string, pathSpecifier: string)

  predicate EndsWith(s: string, t: string) {
    |t| <= |s| && s[|s| - |t|..] == t
  }

  /** The provider as interpolated into the prompt. */
  function ProviderName(p: Provider): string {
    match p
    case GitHub => "GitHub"
  }

  // ---------------------------------------------------------------------------
  // Prompt mode

  /** The runner the command starts with: `yarn` for yarn, `npx` for every other package manager. */
  function Runner(pm: PackageManager): (r: string)
    ensures pm == Yarn <==> r == "yarn"
    ensures pm == Npm <==> r == "npx"
  {
    assert "yarn"[0] != "npx"[0];
    match pm
    case Yarn => "yarn"
    case Npm => "npx"
  }

  /** The command the prompt suggests: `yarn` for yarn, `npx` for every other package manager. */
  function CreateIssueCommand(pm: PackageManager, pathSpecifier: string): (c: string)
    ensures (pm == Yarn) <==> "yarn patch-package " <= c
    ensures (pm == Npm) <==> "npx patch-package " <= c
    ensures EndsWith(c, " " + pathSpecifier + " --create-issue")
    ensures |c| == (if pm == Yarn then 4 else 3) + 15 + |pathSpecifier| + 15
  {
    RunnerPrefix(pm, pathSpecifier + " --create-issue");
    CommandEnds(Runner(pm), pathSpecifier);
    Runner(pm) + " patch-package " + pathSpecifier + " --create-issue"
  }

  /** A command starting with one runner does not start with the other. */
  lemma {:induction false} RunnerPrefix(pm: PackageManager, rest: string)
    ensures pm == Yarn <==> "yarn patch-package " <= Runner(pm) + " patch-package " + rest
    ensures pm == Npm <==> "npx patch-package " <= Runner(pm) + " patch-package " + rest
  {
    var head := Runner(pm) + " patch-package ";
    var c := head + rest;
    assert c[..|head|] == head;
    if pm == Yarn {
      assert head == "yarn patch-package ";
      assert !("npx patch-package " <= c) by { assert c[0] == 'y'; }
    } else {
      assert head == "npx patch-package ";
      assert !("yarn patch-package " <= c) by { assert c[0] == 'n'; }
    }
  }

  /** A command ends with the path specifier and the flag. */
  lemma {:induction false} CommandEnds(runner: string, pathSpecifier: string)
    ensures EndsWith(runner + " patch-package " + pathSpecifier + " --create-issue", " " + pathSpecifier + " --create-issue")
  {
    var c := runner + " patch-package " + pathSpecifier + " --create-issue";
    var tail := " " + pathSpecifier + " --create-issue";
    assert c == (runner + " patch-package") + tail;
    assert c[|c| - |tail|..] == tail;
  }

  /** What the prompt says: which package, on which provider, and the command to run. */
  datatype IssuePrompt = IssuePrompt(packageName: string, provider: Provider, command: string)

  /** The console text of a prompt; the bold styling of the name is not modelled. */
  function PromptMessage(p: IssuePrompt): (m: string)
    ensures "\U{1F4A1} " + p.packageName + " is on " + ProviderName(p.provider) <= m
    ensures EndsWith(m, "\n\n    " + p.command + "\n")
  {
    var head := "\U{1F4A1} " + p.packageName + " is on " + ProviderName(p.provider);
    var tail := "\n\n    " + p.command + "\n";
    var m := head + "! To draft an issue based on your patch run" + tail;
    assert m[..|head|] == head;
    assert m[|m| - |tail|..] == tail;
    m
  }

  /**
   * `maybePrintIssueCreationPrompt`: a prompt exactly when the manifest names a
   * repository, naming the package and the provider, with a command that starts
   * with `yarn` for yarn and `npx` otherwise and ends with the path specifier.
   */
  function MaybeIssueCreationPrompt(details: PackageDetails, pm: PackageManager, field: RepositoryField, dots: DotReading): (r: Option<IssuePrompt>)
    ensures r.Some? <==> GetPackageVcsDetails(field, dots).Some?
    ensures r.Some? ==> r.value.packageName == details.name && r.value.provider == GetPackageVcsDetails(field, dots).value.provider
    ensures r.Some? ==> r.value.command == CreateIssueCommand(pm, details.pathSpecifier)
    ensures r.Some? ==> ((pm == Yarn) <==> "yarn patch-package " <= r.value.command)
    ensures r.Some? ==> ((pm == Npm) <==> "npx patch-package " <= r.value.command)
    ensures r.Some? ==> EndsWith(r.value.command, " " + details.pathSpecifier + " --create-issue")
  {
    match GetPackageVcsDetails(field, dots)
    case None => None
    case Some(vcs) => Some(IssuePrompt(details.name, vcs.provider, CreateIssueCommand(pm, details.pathSpecifier)))
  }

  // ---------------------------------------------------------------------------
  // Open mode

  /** The patch text with one trailing line feed removed, since the diff fence adds its own. */
  function TrimTrailingNewline(patch: string): (r: string)
    ensures EndsWith(patch, "\n") ==> r + "\n" == patch
    ensures !EndsWith(patch, "\n") ==> r == patch
  {
    if EndsWith(patch, "\n") then patch[..|patch| - 1] else patch
  }

  /** Trimming undoes appending one line feed. */
  lemma {:induction false} TrimUndoesNewline(t: string)
    ensures TrimTrailingNewline(t + "\n") == t
  {
    var p := t + "\n";
    assert p[|p| - 1..] == "\n";
    assert p[..|p| - 1] == t;
  }

  /** Only one line feed goes: of two, the first stays. */
  lemma {:induction false} TrimRemovesOnlyOne(t: string)
    ensures TrimTrailingNewline(t + "\n\n") == t + "\n"
  {
    assert t + "\n\n" == (t + "\n") + "\n";
    TrimUndoesNewline(t + "\n");
  }

  /** The address the link opens before its query string. */
  function IssueAddress(v: VcsIdentity): (a: string)
    ensures "https://github.com/" <= a && EndsWith(a, "/issues/new?")
    ensures |a| == 19 + |v.org| + 1 + |v.repo| + 12 && a[19..|a| - 12] == v.org + "/" + v.repo
  {
    var a := "https://github.com/" + v.org + "/" + v.repo + "/issues/new?";
    assert a[..19] == "https://github.com/";
    assert a[19..|a| - 12] == v.org + "/" + v.repo;
    assert a[|a| - 12..] == "/issues/new?";
    a
  }

  lemma {:induction false} IssueAddressParts(v: VcsIdentity)
    ensures NoGithubMention("https://") && TailMatches("/issues/new?", AnyCharacter) && TailMatches("/issues/new?", LiteralDot)
    ensures HostedUrl("https://", '/', v.org, v.repo, "/issues/new?") == IssueAddress(v)
  {
    MissingLetterMeansNoMention("https://", 0);
    assert "https://" + "github.com" + ['/'] == "https://github.com/";
  }

  /** The issue address names the repository it was built from: the resolver, under either reading, reads it back. */
  lemma {:induction false} IssueAddressNamesRepository(v: VcsIdentity, dots: DotReading)
    requires WellFormed(v)
    ensures ResolveRepoString(IssueAddress(v), dots) == Some(v)
  {
    IssueAddressParts(v);
    assert v == VcsIdentity(v.org, v.repo, GitHub);
    HostedUrlResolves("https://", '/', v.org, v.repo, "/issues/new?", dots);
  }

  const TitlePlaceholder := "[Replace me]"

  /** Lines of text, each followed by a line feed. */
  function JoinLines(lines: seq<string>): string {
    if lines == [] then "" else lines[0] + "\n" + JoinLines(lines[1..])
  }

  /** Joined lines end a line: the text is empty or its last character is a line feed. */
  lemma {:induction false} JoinedLinesEndLine(lines: seq<string>)
    requires lines != []
    ensures EndsWith(JoinLines(lines), "\n")
  {
    var rest := JoinLines(lines[1..]);
    if lines[1..] == [] {
      assert JoinLines(lines) == lines[0] + "\n" + "";
    } else {
      JoinedLinesEndLine(lines[1..]);
      assert JoinLines(lines) == (lines[0] + "\n") + rest;
    }
  }

  /** Words separated by single spaces. */
  function Words(ws: seq<string>): string {
    if ws == [] then "" else if |ws| == 1 then ws[0] else ws[0] + " " + Words(ws[1..])
  }

  /** The prose of the issue body before the diff, line by line, naming the package. */
  function BodyLeadLines(name: string): (lines: seq<string>)
    ensures lines != []
  {
    [ "Hi! \U{1F44B} "
    , "      "
    , Words(["Firstly,", "thanks", "for", "your", "work", "on", "this", "project!", "\U{1F642}"])
    , ""
    , Words(["Today", "I", "used", "[patch-package](https://github.com/ds300/patch-package)", "to", "patch", "`" + name + "`",
             "for", "the", "project", "I'm", "working", "on", "because", "[Insert", "reason", "here]."])
    , ""
    , Words(["Here", "is", "the", "diff", "that", "solved", "my", "problem:"])
    , ""
    ]
  }

  /** The prose before the diff; it ends with a line feed, so the opening fence starts a line of its own. */
  function BodyLead(name: string): (lead: string)
    ensures EndsWith(lead, "\n")
  {
    JoinedLinesEndLine(BodyLeadLines(name));
    JoinLines(BodyLeadLines(name))
  }

  const DiffOpen := "```diff\n"
  const DiffClose := "\n```\n"

  /** An issue body: the prose `lead`, then the patch between the diff fences. */
  function IssueBody(lead: string, patch: string): (b: string)
    ensures |b| == |lead| + |DiffOpen| + |patch| + |DiffClose| && b[..|lead|] == lead
  {
    var b := lead + DiffOpen + patch + DiffClose;
    assert b[..|lead|] == lead;
    b
  }

  /**
   * After a lead that ends a line, the patch sits alone between a line "```diff"
   * and a line "```", and nothing follows the closing fence but its line feed.
   */
  lemma {:induction false} PatchBetweenFences(lead: string, patch: string)
    requires EndsWith(lead, "\n")
    ensures var b := IssueBody(lead, patch);
      var k := |b| - |patch| - 5;
      && 9 <= k
      && b[k - 9] == '\n' && b[k - 8..k] == "```diff\n"
      && b[k..k + |patch|] == patch
      && b[k + |patch|..] == "\n```\n"
  {
    var b := IssueBody(lead, patch);
    var k := |lead| + 8;
    assert b == lead + DiffOpen + patch + DiffClose;
    assert lead[|lead| - 1] == lead[|lead| - 1..][0];
    assert b[k - 9] == lead[|lead| - 1];
    assert b[k - 8..k] == DiffOpen;
    assert b[k..k + |patch|] == patch;
    assert b[k + |patch|..] == DiffClose;
  }

  /** The patch a body carries after `lead`, read back from between the diff fences. */
  function EmbeddedPatch(lead: string, body: string): (r: Option<string>)
    ensures r.Some? ==> IssueBody(lead, r.value) == body
  {
    var head := lead + DiffOpen;
    if |head| + |DiffClose| <= |body| && body[..|head|] == head && body[|body| - |DiffClose|..] == DiffClose then
      var patch := body[|head|..|body| - |DiffClose|];
      assert body == body[..|head|] + patch + body[|body| - |DiffClose|..];
      Some(patch)
    else
      None
  }

  /** Every patch is recovered verbatim from the body it was embedded in. */
  lemma {:induction false} EmbeddedPatchRoundTrip(lead: string, patch: string)
    ensures EmbeddedPatch(lead, IssueBody(lead, patch)) == Some(patch)
  {
    var head := lead + DiffOpen;
    var body := IssueBody(lead, patch);
    assert body == head + patch + DiffClose;
    assert body[..|head|] == head;
    assert body[|body| - |DiffClose|..] == DiffClose;
    assert body[|head|..|body| - |DiffClose|] == patch;
  }

  /** One `key=value` pair handed to the query-string encoder. */
  datatype QueryParam = QueryParam(key: string, value: string)

  /** The link to open: the address, then its query parameters in order, before encoding. */
  datatype IssueLink = IssueLink(address: string, query: seq<QueryParam>)

  const MissingVcsPrefix := "Error: Couldn't find VCS details for "

  /**
   * The link to the new-issue page of repository `v`: the placeholder title, and a
   * body that carries `patch` inside the diff fence after the prose naming the package.
   */
  function IssueLinkFor(v: VcsIdentity, name: string, patch: string): (l: IssueLink)
    requires WellFormed(v)
    ensures CorrectedParseRepoString(l.address) == Some(v) && ParseRepoString(l.address) == Some(v)
    ensures l.address == IssueAddress(v)
    ensures |l.query| == 2 && l.query[0] == QueryParam("title", "[Replace me]") && l.query[1].key == "body"
    ensures EmbeddedPatch(BodyLead(name), l.query[1].value) == Some(patch)
  {
    IssueAddressNamesRepository(v, LiteralDot);
    IssueAddressNamesRepository(v, AnyCharacter);
    EmbeddedPatchRoundTrip(BodyLead(name), patch);
    IssueLink(IssueAddress(v), [QueryParam("title", TitlePlaceholder), QueryParam("body", IssueBody(BodyLead(name), patch))])
  }

  /**
   * `openIssueCreationLink`: without a repository an error naming the path
   * specifier (the source prints it and exits with status 1); with one, the link to
   * that repository's new-issue page for the patch with one trailing line feed trimmed.
   */
  function OpenIssueCreationLink(details: PackageDetails, field: RepositoryField, patchFileContents: string, dots: DotReading): (r: Result<IssueLink, string>)
    ensures r.Failure? <==> GetPackageVcsDetails(field, dots).None?
    ensures r.Failure? ==> MissingVcsPrefix <= r.error && r.error[|MissingVcsPrefix|..] == details.pathSpecifier
    ensures r.Success? ==> r.value == IssueLinkFor(GetPackageVcsDetails(field, dots).value, details.name, TrimTrailingNewline(patchFileContents))
  {
    match GetPackageVcsDetails(field, dots)
    case None =>
      var e := MissingVcsPrefix + details.pathSpecifier;
      assert e[..|MissingVcsPrefix|] == MissingVcsPrefix;
      Failure(e)
    case Some(vcs) =>
      Success(IssueLinkFor(vcs, details.name, TrimTrailingNewline(patchFileContents)))
  }

  // ---------------------------------------------------------------------------
  // Scenarios

  /** With `"repository": "github:facebook/react"` and yarn, the prompt suggests `yarn patch-package ...`. */
  lemma {:induction false} YarnPromptScenario(details: PackageDetails, dots: DotReading)
    ensures var r := MaybeIssueCreationPrompt(details, Yarn, Text("github:facebook/react"), dots);
      r.Some? && r.value.provider == GitHub && "yarn patch-package " <= r.value.command
  {
    ShorthandFieldScenario(dots);
  }

  /** With `"repository": "https://gitlab.com/foo/bar"` there is no prompt, and opening fails naming the package. */
  lemma {:induction false} OtherHostScenario(details: PackageDetails, pm: PackageManager, patch: string, dots: DotReading)
    ensures MaybeIssueCreationPrompt(details, pm, Text("https://gitlab.com/foo/bar"), dots).None?
    ensures OpenIssueCreationLink(details, Text("https://gitlab.com/foo/bar"), patch, dots)
         == Failure("Error: Couldn't find VCS details for " + details.pathSpecifier)
  {
    OtherHostFieldScenario(dots);
  }
}
