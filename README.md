# patch-package: repository identity and issue links

This project models, in Dafny, the part of patch-package's `src/createIssue.ts`
that works out which GitHub repository a dependency comes from and composes the
issue that offers its patch upstream.

- `RepoPatterns` (`patterns.dfy`) reads the two regular expressions the way
  JavaScript does:
  - `repoSpecifier` is `^([\w.-]+)\/([\w.-]+)$`;
  - `githubURL` is `github.com(:|\/)([\w.-]+\/[\w.-]+?)(.git|\/.*)?$`. It is
    unanchored, so the leftmost match wins, and its repository part is lazy.
  - `\w` is `[A-Za-z0-9_]`, and an unescaped `.` is one UTF-16 code unit other
    than a line terminator.
  - A `DotReading` parameter reads the unescaped dots either as written (any
    character) or as literal dots.
- `RepoIdentity` (`resolver.dfy`) models:
  - `parseRepoString`, as three ordered steps: strip `github:`, replace a hosting
    URL by its `org/repo` capture, then accept only a bare `org/repo`;
  - `getPackageVCSDetails`, over a datatype of the manifest's `repository` value
    by its JavaScript type.
- `IssueComposer` (`issue_link.dfy`) models:
  - the prompt of `maybePrintIssueCreationPrompt`;
  - the link that `openIssueCreationLink` opens, given as its address and its
    query parameters before encoding;
  - the missing-repository exit, which becomes a `Failure` carrying the error message.
- `Results` (`results.dfy`) holds the `Option` and `Result` datatypes.

Resolution is either a complete identity or `None`. The URL pattern as written
truncates some repository names (see "## Findings"). So the manifest layer and the
composer take the reading of the dots as a parameter:
- `AnyCharacter` is the program as written, end to end;
- `LiteralDot` is the program with the corrected pattern.

`ParseRepoString` and `CorrectedParseRepoString` are the two readings of
`parseRepoString`. Every general lemma about resolution is stated for both readings.

## Model

| member | source | states |
|---|---|---|
| RepoPatterns.SegmentSpan | src/createIssue.ts:8-9 | the greedy `[\w.-]+` run from a position stays inside the string; `SegmentSpanRun` and `SegmentSpanIs` show it is the longest run of class characters |
| RepoPatterns.SegmentSpanRun | src/createIssue.ts:8 | the greedy run of `[\w.-]` characters holds only class characters and stops at the end or before a character outside the class |
| RepoPatterns.SegmentSpanIs | src/createIssue.ts:8 | a class run that ends at the end of the string or before a non-class character is exactly the greedy run |
| RepoPatterns.MatchRepoSpecifier | src/createIssue.ts:8 | a `repoSpecifier` match gives two non-empty `[\w.-]` segments whose join with `/` is the whole input |
| RepoPatterns.SpecifierOfSegments | src/createIssue.ts:8 | every `org/repo` of two `[\w.-]+` segments matches `repoSpecifier`, capturing exactly `org` and `repo` |
| RepoPatterns.LazyRepoLength | src/createIssue.ts:9 | the lazy `[\w.-]+?` tries lengths upward and settles, if at all, on a length within the run of class characters |
| RepoPatterns.LazyRepoLengthFirst | src/createIssue.ts:9 | the lazy `[\w.-]+?` settles on a length whose remainder `(.git|\/.*)?$` accepts, and no shorter length is accepted |
| RepoPatterns.OrgLengthAt | src/createIssue.ts:9 | the organisation part is a non-empty run followed by `/` |
| RepoPatterns.RepoLengthAt | src/createIssue.ts:9 | the repository part is non-empty and lies inside the string |
| RepoPatterns.UrlCaptureAt | src/createIssue.ts:9 | a match starting at `i` has the host `github.com` at `i` and a `:` or `/` after it, and it captures the text that follows |
| RepoPatterns.CaptureIsSpecifier | src/createIssue.ts:8-9 | whatever `githubURL` captures is accepted by `repoSpecifier` |
| RepoPatterns.LazyTakesWhole | src/createIssue.ts:9 | the lazy repository part takes a whole segment when no shorter prefix leaves an accepted remainder |
| RepoPatterns.OrgTakesWhole | src/createIssue.ts:9 | the greedy organisation part takes a whole segment that a `/` follows |
| RepoPatterns.CaptureOfLayout | src/createIssue.ts:9 | with `github.com`, a separator, `org/` and `repo` at a position, the match there captures `org/repo` |
| RepoPatterns.FirstUrlMatch | src/createIssue.ts:9 | the chosen start position matches, and no earlier position does (leftmost match) |
| RepoPatterns.AstralCharacterIsNotDot | src/createIssue.ts:9 | an unescaped `.` does not take a character of two UTF-16 units: `\U{1F600}git` is no `.git` tail and `github\U{1F600}com` is no host |
| RepoPatterns.MatchGithubUrl | src/createIssue.ts:9-20 | the capture of the leftmost `githubURL` match is always a valid `org/repo` specifier |
| RepoPatterns.MissingLetterMeansNoMention | src/createIssue.ts:9 | a string lacking one letter of `github` contains no `github` |
| RepoPatterns.NoMentionInsidePrefix | src/createIssue.ts:9 | no occurrence of `github` starts inside a prefix that lacks `github` and is followed by `g` |
| RepoPatterns.NoMentionNoCapture | src/createIssue.ts:9 | no match starts where `github` does not occur |
| RepoPatterns.NoCaptureInPrefix | src/createIssue.ts:9 | no match starts inside a prefix that does not mention `github` |
| RepoPatterns.LeftmostMatch | src/createIssue.ts:9-20 | a match with none before it is the one `match` returns |
| RepoPatterns.NoMentionNoUrl | src/createIssue.ts:9-20 | a string without `github` has no `githubURL` match |
| RepoPatterns.BareSpecifierHasNoUrl | src/createIssue.ts:9-20 | a bare `org/repo` has no `githubURL` match, so the URL step leaves it unchanged |
| RepoIdentity.StripShorthandPrefix | src/createIssue.ts:14-16 | a string starting with `github:` loses exactly that prefix; any other string is unchanged |
| RepoIdentity.AfterUrlStep | src/createIssue.ts:17-20 | without a `githubURL` match the working string is unchanged; with one it becomes the capture, which `repoSpecifier` accepts |
| RepoIdentity.ResolveRepoString | src/createIssue.ts:11-30 | a resolution is complete (both names `[\w.-]+`, provider GitHub), and every string with a URL match resolves |
| RepoIdentity.ParseRepoString | src/createIssue.ts:9-30 | the same guarantees with the dots of `githubURL` read as written |
| RepoIdentity.CorrectedParseRepoString | src/createIssue.ts:9-30 | the same guarantees with the dots of `githubURL` escaped |
| RepoIdentity.BareSpecifierResolves | src/createIssue.ts:8-29 | a bare `org/repo` of two segments resolves to exactly `{org, repo, GitHub}` under either reading |
| RepoIdentity.ShorthandStripped | src/createIssue.ts:14-16 | `github:` followed by a string without that prefix resolves like the string alone |
| RepoIdentity.ShorthandStrippedOnce | src/createIssue.ts:14-26 | the prefix is removed only once: a doubled `github:github:...` that is not a URL is unresolved |
| RepoIdentity.CaptureAtHost | src/createIssue.ts:9 | in a hosted URL, the match at the host captures `org/repo` |
| RepoIdentity.HostedUrlResolvesWith | src/createIssue.ts:9-30 | `<p>github.com<sep>org/repo<suffix>` resolves to `{org, repo}` when `p` lacks `github`, the suffix is accepted, and the lazy part takes all of `repo` |
| RepoIdentity.NonEmptyTailKeepsWhole | src/createIssue.ts:9 | a non-empty accepted suffix (`.git`-like or `/...`) never lets the lazy capture stop early |
| RepoIdentity.EmptyTailKeepsWhole | src/createIssue.ts:9 | with nothing after the name, the capture stops early only on a `.git`-like ending |
| RepoIdentity.HostedUrlResolves | src/createIssue.ts:9-20 | a hosted URL with no suffix, a `.git` suffix or further path segments resolves to its `org` and `repo`; with no suffix the name must not end like `.git` |
| RepoIdentity.ShorthandSpecifierResolves | src/createIssue.ts:14-29 | `github:org/repo` resolves to `{org, repo, GitHub}` |
| RepoIdentity.SshUrlResolves | src/createIssue.ts:9-20 | `git+ssh://git@github.com/org/repo.git` resolves to `{org, repo, GitHub}` |
| RepoIdentity.HttpsUrlResolves | src/createIssue.ts:9-20 | `https://github.com/org/repo` resolves to `{org, repo, GitHub}` when the name does not end like `.git` |
| RepoIdentity.GitLikeNameTruncated | src/createIssue.ts:9 | as written, a URL that ends in a name of more than four characters whose last three are `git` resolves to that name minus its last four characters |
| RepoIdentity.GitLikeSplit | src/createIssue.ts:9 | such a name splits into a segment and a four-character tail that stops the lazy capture |
| RepoIdentity.IsomorphicGitName | src/createIssue.ts:9 | `isomorphic-git` ends like `.git` as written but not with a literal dot |
| RepoIdentity.IsomorphicGitTruncated | src/createIssue.ts:9-30 | as written, `https://github.com/isomorphic-git/isomorphic-git` resolves to the repository `isomorphic` |
| RepoIdentity.LiteralGitSuffix | src/createIssue.ts:9 | with escaped dots, a name ends like `.git` exactly when it ends in a literal `.git` |
| RepoIdentity.CorrectedHostedUrlResolves | src/createIssue.ts:9-30 | with escaped dots, a hosted URL keeps the whole name unless the name ends in a literal `.git` that nothing follows |
| RepoIdentity.IsomorphicGitKeptWhenCorrected | src/createIssue.ts:9-30 | with escaped dots, the `isomorphic-git` URL resolves to `isomorphic-git` |
| RepoIdentity.UnrecognisedIsUnresolved | src/createIssue.ts:22-26 | a string without `github` that is not a bare `org/repo` resolves to nothing |
| RepoIdentity.OtherHostShape | src/createIssue.ts:8-9 | `https://gitlab.com/foo/bar` neither mentions `github` nor is a bare specifier |
| RepoIdentity.OtherHostUnresolved | src/createIssue.ts:22-26 | `https://gitlab.com/foo/bar` is unresolved under either reading |
| RepoIdentity.FalsyValues | src/createIssue.ts:36 | `!repository` holds exactly for `undefined`, `null`, `false`, `0` and `""`; no object is falsy |
| RepoIdentity.EmptyStringUnresolved | src/createIssue.ts:22-26 | the empty string resolves to nothing |
| RepoIdentity.GetPackageVcsDetails | src/createIssue.ts:32-47 | a falsy field gives nothing; a non-empty string is parsed; an object with a string `url` has it parsed; every other shape gives nothing; a result is well formed; `dots` picks the reading of the pattern |
| RepoIdentity.RepositoryString | src/createIssue.ts:36-46 | the string handed to the parser: none for a falsy field, the text of a non-empty string, the `url` of an object when it is a string, none otherwise |
| RepoIdentity.StringFieldParsed | src/createIssue.ts:36-40 | every string field resolves as the parser resolves it, the falsy guard included |
| RepoIdentity.ShorthandFieldScenario | src/createIssue.ts:39-40 | the field `"github:facebook/react"` gives `{facebook, react, GitHub}` under either reading |
| RepoIdentity.UrlObjectFieldScenario | src/createIssue.ts:41-46 | the field `{"url": "git+https://github.com/foo/bar.git"}` gives `{foo, bar, GitHub}` under either reading |
| RepoIdentity.OtherHostFieldScenario | src/createIssue.ts:39-40 | the field `"https://gitlab.com/foo/bar"` gives nothing under either reading |
| IssueComposer.Runner | src/createIssue.ts:59 | the runner is `yarn` exactly for yarn and `npx` exactly otherwise |
| IssueComposer.CreateIssueCommand | src/createIssue.ts:59-61 | the command starts with `yarn patch-package ` exactly for yarn and with `npx patch-package ` exactly otherwise, ends with ` <pathSpecifier> --create-issue`, and has nothing between the two |
| IssueComposer.RunnerPrefix | src/createIssue.ts:59 | a command starting with one runner does not start with the other |
| IssueComposer.PromptMessage | src/createIssue.ts:55-62 | the hint starts with the bulb, the package name and `is on GitHub`, and ends with the indented command on a line of its own |
| IssueComposer.MaybeIssueCreationPrompt | src/createIssue.ts:49-64 | there is a prompt exactly when the manifest names a repository; it names the package and the provider; its command is the create-issue command for the package manager and the path specifier |
| IssueComposer.TrimTrailingNewline | src/createIssue.ts:82-85 | a patch ending in a line feed loses exactly that one character; any other patch is unchanged |
| IssueComposer.TrimUndoesNewline | src/createIssue.ts:83-85 | trimming undoes appending one line feed |
| IssueComposer.TrimRemovesOnlyOne | src/createIssue.ts:83-85 | of two trailing line feeds, only the last goes |
| IssueComposer.IssueAddress | src/createIssue.ts:88 | the address is `https://github.com/`, then `org/repo`, then `/issues/new?` |
| IssueComposer.IssueAddressNamesRepository | src/createIssue.ts:88 | the resolver reads the repository back out of the address, under either reading |
| IssueComposer.JoinedLinesEndLine | src/createIssue.ts:90-97 | text joined from lines ends with a line feed |
| IssueComposer.BodyLead | src/createIssue.ts:90-97 | the prose before the diff ends a line, so the opening fence starts a line of its own |
| IssueComposer.IssueBody | src/createIssue.ts:90-101 | the body starts with the prose and is as long as the prose, the two fences and the patch together; `PatchBetweenFences` places the patch |
| IssueComposer.PatchBetweenFences | src/createIssue.ts:97-101 | in the body, the patch sits right after a line `` ```diff `` and right before a closing line `` ``` ``, and nothing else follows |
| IssueComposer.EmbeddedPatch | src/createIssue.ts:98-100 | a patch read back from between the fences rebuilds the body it came from |
| IssueComposer.EmbeddedPatchRoundTrip | src/createIssue.ts:98-100 | every patch is read back verbatim from the body it was put in |
| IssueComposer.IssueLinkFor | src/createIssue.ts:87-103 | the address names the repository; the query is the title `[Replace me]` and then the body, and the body carries the patch verbatim between the fences |
| IssueComposer.OpenIssueCreationLink | src/createIssue.ts:66-104 | it fails exactly when no repository resolves, with `Error: Couldn't find VCS details for ` and the path specifier; otherwise it gives the link for the patch with one trailing line feed trimmed |
| IssueComposer.YarnPromptScenario | src/createIssue.ts:53-61 | for `"github:facebook/react"` with yarn, under either reading, the prompt names GitHub and its command starts with `yarn patch-package ` |
| IssueComposer.OtherHostScenario | src/createIssue.ts:53-80 | for `"https://gitlab.com/foo/bar"`, under either reading, there is no prompt, and opening fails with the message naming the path specifier |

## Left out

- `src/installCleanPackage.ts` is not part of this model. It only hands over to a download collaborator and to `fs-extra`'s move, and has no logic of its own.
- The manifest read `require(resolve(join(path, "package.json")))` (line 33) is file I/O. The `repository` value comes in as a `RepositoryField` datatype, and a manifest that cannot be read has no counterpart.
- `querystring.stringify` percent-encoding (line 88) is library code. The link keeps the `title` and `body` pairs unencoded, in order.
- `open`, `chalk.bold`, `console.log`/`console.error` and `process.exit(1)` are I/O and process control. The prompt and the link are returned as values, the bold styling of the package name is not modelled, and the exit becomes a `Failure` carrying the error text.
- `src/detectPackageManager.ts` is not part of this model, so `PackageManager` has only the two values `Npm` and `Yarn`. Every value other than yarn behaves like `Npm`.
- `src/PackageDetails.ts` is not part of this model. `PackageDetails` keeps only `name`, `path` and `pathSpecifier`.
- Strings are sequences of Unicode scalar values, whereas JavaScript strings are UTF-16 code units. Where this matters, the single unescaped `.` before `com` and before `git` takes no character of two units, because a literal must follow in the next unit. Lone surrogates cannot be represented.
- `IsFalsy` treats only the integer 0 as a falsy number. NaN and fractional numbers are not represented, and an object's `url` that is not a string is one value, `UrlOther`.
- The issue body's prose is modelled line by line with the same text. Its properties are stated about where the diff fence and the patch sit, not about the wording.
- HttpsUrlResolves: its precondition excludes names that end in any character followed by `git` under the reading it is used with. As written those names are truncated, and `GitLikeNameTruncated` states what happens to them instead.
- HostedUrlResolves: its precondition excludes, when nothing follows the name, names that end like `.git` under the chosen reading. `GitLikeNameTruncated` covers them as written, and `CorrectedHostedUrlResolves` covers them with escaped dots.

## Findings

| source | as written | input that shows it | evidently intended | confidence | as-written member | corrected member |
|---|---|---|---|---|---|---|
| src/createIssue.ts:9 | the dots of `github.com` and `.git` are unescaped, so `.git` accepts any character before `git`; the lazy `[\w.-]+?` stops at the first length whose remainder is accepted | `https://github.com/isomorphic-git/isomorphic-git` resolves to repository `isomorphic`, since the remainder `-git` is accepted by `(.git\|\/.*)?$` | `github\.com(:\|\/)([\w.-]+\/[\w.-]+?)(\.git\|\/.*)?$`, which drops only a literal `.git` | not executed | RepoIdentity.IsomorphicGitTruncated | RepoIdentity.CorrectedHostedUrlResolves |
