# scl: conventional-commit collection, changelog and next version

`scl` reads the commits of a git range, parses their messages as Conventional
Commits, and from them produces release metadata: a changelog grouped into
BREAKING CHANGES, Features and Bug Fixes (as Markdown or JSON), and the next
semantic version after a base version. This project models that decision logic
in Dafny and proves what it promises:

- `wrappers.dfy`: `Option` and `Result`; the walked commit
  `(oid, message)` as git hands it over (a message that is not UTF-8 is
  `None`); the `conventional` crate's commit record (type, description,
  breaking).
- `sequences.dfy`: the iterator adaptors the Rust code is built from (`map`,
  `filter`, `filter_map`, joining with a separator), with the facts used
  everywhere else: which elements they keep, in which order and from which
  positions (`Positions` gives the index of the input each result came from).
- `git.dfy` (src/git.rs): the `ConventionalCommit` and
  `ConventionalCommitFooter` records built from a parsed commit, the
  breaking-change list, footer rendering, and the strict/lenient collection
  loop of `get_conventional_commits`, as an imperative method proved against
  the specification function `Collect`.
- `scl.dfy` (src/commands/scl.rs): the message pipeline of `run_scl_command`:
  trimming of trailing `\r`/`\n`, failure on a non-UTF-8 message, and the
  lenient `filter_map` through the `conventional` parser.
- `changelog.dfy` (src/commands/changelog.rs): `categorize_commits`, and
  `format_markdown`/`format_json` as methods with the source's `first` flags
  that append to a returned string, proved equal to the layout functions
  `Markdown` and `Json`.
- `version.dfy` (src/commands/version.rs): `get_next_version`, with an
  independent reference (the largest bump any single commit asks for) proved
  equal to its first-match precedence.
- `release.dfy`: how the changelog and the next version of one range relate.

The two parser libraries (`git_conventional::Commit::parse` in src/git.rs,
`conventional::Commit::new` in src/commands/scl.rs) are foreign code: each is
a function parameter (`Git.Parser`, `Scl.Parser`), and what the library
computes (`breaking()`, `breaking_description()`, a footer's `breaking()`) is
read as fields of its result. The walked range is an input sequence.

Two behaviours of the code worth knowing:
- Commits are kept in walk order: neither src/git.rs nor
  src/commands/scl.rs reverses the revwalk, which starts from the target
  commit.
- JSON values are inserted without escaping, as src/commands/changelog.rs:83
  and :93 do; `Changelog.JsonIsAmbiguous` shows the consequence.

## Model

| member | source | states |
|---|---|---|
| Git.FooterFromParsed | src/git.rs:78-89 | the footer record keeps token, value and breaking flag, and stores the separator as text: `": "` for `Value`, the library's text for any other separator |
| Git.FooterToString | src/git.rs:92-96 | the rendering is the token, then the separator text, then the value, nothing between or around them |
| Git.FooterRendering | src/git.rs:83-94 | a `Value` footer renders as token, `": "`, value, and any other as token, the library's separator text, value; when a `Value` footer's token has no colon, the first colon of the rendering ends the token and the value follows `": "`, so the rendering splits back into token and value |
| Git.BreakingChanges | src/git.rs:39-66 | empty exactly when there is no breaking description; otherwise the description comes first, followed by exactly the values of the breaking footers whose value differs from it, in footer order (positions increase and none is skipped), so no later entry repeats the description and the length is one plus the number of such footers |
| Git.AdditionalBreakingFooters | src/git.rs:51-56 | the footers kept after the breaking description are the breaking ones whose value differs from it, in footer order, none skipped |
| Git.CommitFromParsed | src/git.rs:21-37 | the record carries breaking flag, type, scope, description and body over, converts the footers one for one in order by `FooterFromParsed`, and its sha is the walked oid |
| Git.CommitBreakingChanges | src/git.rs:24 | the record's breaking-change list is the one `get_breaking_changes` builds from the parsed commit, so `Git.BreakingChanges` describes it |
| Git.Collect | src/git.rs:105-126 | the collection, one walked commit after the other, stopping at the first that aborts; a success never holds more records than commits walked |
| Git.CollectFailsIffAbort | src/git.rs:107-124 | the collection fails exactly when some walked commit has a non-UTF-8 message or, in strict mode, does not parse |
| Git.CollectFailsAtFirstAbort | src/git.rs:107-121 | a failed collection carries the error of the first such commit: `InvalidUtf8` with its oid, or `Unconventional` with its oid and the parser's diagnostic |
| Git.CollectSuccessIsFilterMap | src/git.rs:115-123 | a successful collection is the records of the walked commits that parse, in walk order |
| Git.CollectMeaning | src/git.rs:105-126 | the three facts above together, plus: a strict success keeps every walked commit, each record carrying its own oid |
| Git.GetConventionalCommits | src/git.rs:105-126 | the loop returns what `Collect` specifies: failure iff an aborting commit exists, the first one's error, otherwise the records of the commits that parse in walk order, and in strict mode one record per walked commit with matching sha |
| Git.StrictCollectsEverything | src/git.rs:117-123 | when no commit aborts under the strict policy, the records are as many as the walked commits and the i-th has the i-th commit's oid |
| Git.LenientKeepsParsedInOrder | src/git.rs:117-123 | the records are an order-preserving subsequence of the walk: the k-th is built from the commit at the k-th of increasing positions, whose message parses, and has its oid; no commit that parses is skipped; never more records than commits |
| Git.StrictSuccessIsLenientSuccess | src/git.rs:110-122 | no strict abort implies no lenient abort, and then both modes give the same records; a lenient abort happens exactly when some message is not UTF-8 |
| Scl.TrimEnd | src/commands/scl.rs:62 | the trimmed message is a prefix of the message, does not end with `\r` or `\n`, and everything removed is `\r` or `\n` |
| Scl.TrimEndIdempotent | src/commands/scl.rs:62 | trimming twice is trimming once |
| Scl.TrimEndUnique | src/commands/scl.rs:62 | any prefix with the three properties of `TrimEnd` is the trimmed message, so those properties define it |
| Scl.TrimmedMessages | src/commands/scl.rs:57-65 | fails exactly when some message is not UTF-8, with the error of the first such commit; otherwise one trimmed message per walked commit, in walk order |
| Scl.SclCommits | src/commands/scl.rs:57-68 | fails exactly when some message is not UTF-8; never yields more commits than walked |
| Scl.FailsBeforeParsing | src/commands/scl.rs:57-68 | a failing run fails the same way whatever the parser would say, with the error of the first non-UTF-8 commit |
| Scl.KeepsParsedInWalkOrder | src/commands/scl.rs:57-68 | a successful run yields, in increasing walk positions, what the parser makes of each trimmed message it accepts, skipping none; the text handed to the parser never ends with a line end |
| Changelog.Candidates | src/commands/changelog.rs:44-48 | three categories named BREAKING CHANGES, Features, Bug Fixes in that order, each holding exactly the input commits whose placement (first rule met: breaking, `feat`, `fix`) is its name and nothing else; their order is stated by `Changelog.CategoryKeepsInputOrder` |
| Changelog.CategorizeCommits | src/commands/changelog.rs:27-52 | at most three categories, each one of the candidates and none empty |
| Changelog.CategoriesInFixedOrder | src/commands/changelog.rs:27-52 | the categories are BREAKING CHANGES, Features, Bug Fixes in that order, each with the commits of its filter, an empty one left out |
| Changelog.CategoriesAreCandidates | src/commands/changelog.rs:44-51 | every emitted category is one of the three built ones, in their order, non-empty, and no non-empty one is dropped |
| Changelog.CategoryMembership | src/commands/changelog.rs:29-42 | an input commit lies in an emitted category exactly when its placement (first rule it meets: breaking, `feat`, `fix`) names that category |
| Changelog.PlacedCommitIsListed | src/commands/changelog.rs:29-51 | a commit that meets one of the rules is listed in a category of that name |
| Changelog.CategoriesFromInput | src/commands/changelog.rs:29-42 | categories hold only commits of the input |
| Changelog.CategoryKeepsInputOrder | src/commands/changelog.rs:29-42 | within a category the commits are the input commits its filter admits, at increasing input positions |
| Changelog.CategoryNamesDistinct | src/commands/changelog.rs:44-51 | no two categories share a name |
| Changelog.CategorizeCommitsPlacement | src/commands/changelog.rs:27-52 | the placement facts above together: no empty category, membership exactly by placement (a breaking `feat`/`fix` only under BREAKING CHANGES, a non-breaking commit of another type nowhere), every placed commit listed |
| Changelog.CategoriesDisjoint | src/commands/changelog.rs:29-42 | no commit lies in two categories |
| Changelog.RulesDisjoint | src/commands/changelog.rs:31-41 | no commit meets two of the three filters |
| Changelog.FormatMarkdown | src/commands/changelog.rs:54-71 | the text printed is `Markdown(categories)`: blocks of `### name`, a blank line and one `- **type:** description` line per commit, joined by one line feed |
| Changelog.MarkdownLayout | src/commands/changelog.rs:56-70 | no categories give `""`; otherwise the text starts with the first heading; one category gives exactly its block, and with more the last block follows the rest after exactly one line feed |
| Changelog.MarkdownAppend | src/commands/changelog.rs:58-69 | the Markdown of two non-empty category lists is theirs with one line feed between |
| Changelog.FormatJson | src/commands/changelog.rs:73-104 | the text printed is `Json(categories)`: `[`, the comma-separated `{"name": "N","commits":[...]}` objects with comma-separated `{"type": "T", "subject": "D"}` commits, `]` |
| Changelog.JsonLayout | src/commands/changelog.rs:76-103 | no categories give `[]`; otherwise the array opens with the first category's object; always starts with `[` and ends with `]` |
| Changelog.JsonIsAmbiguous | src/commands/changelog.rs:93 | two different category lists render to the same JSON, because quotes in values are not escaped |
| Changelog.Run | src/commands/changelog.rs:11-19 | the commits are categorised and rendered as Markdown or JSON as the format asks |
| Changelog.ExampleCategories | src/commands/changelog.rs:27-52 | a `feat`, a `fix` and a `chore` give a Features then a Bug Fixes category, nothing for the `chore` |
| Changelog.ExampleMarkdown | src/commands/changelog.rs:54-71 | their Markdown is the Features heading and bullet, a blank line, the Bug Fixes heading and bullet |
| Changelog.ExampleBullets | src/commands/changelog.rs:66 | the two bullets as literal text: `- **feat:** add X` and `- **fix:** correct Y`, each ending in a line feed |
| Changelog.ExampleJson | src/commands/changelog.rs:73-104 | their JSON is the two category objects with one commit object each |
| Changelog.ExampleCommitObjects | src/commands/changelog.rs:93 | the two commit objects as literal text: `{"type": "feat", "subject": "add X"}` and `{"type": "fix", "subject": "correct Y"}` |
| Version.NextVersion | src/commands/version.rs:16-28 | the base itself (metadata included) when no rule fires, in particular for no commits; otherwise a version with strictly greater triple and no pre-release or build metadata; never a smaller triple |
| Version.HighestBumpIsPrecedence | src/commands/version.rs:18-27 | the largest bump a single commit asks for is the bump the first-match precedence picks: major for a breaking commit on a base with major > 0, else minor for any `feat`, else patch for any `fix`, else none |
| Version.NextVersionIsHighestBump | src/commands/version.rs:16-28 | the next version is the base bumped by the largest single-commit bump, reset as items 6-8 of Semantic Versioning 2.0.0 prescribe |
| Version.HighestBumpAppend | src/commands/version.rs:18-26 | the bump of two commit lists together is the larger of their bumps |
| Version.NextVersionIgnoresOrder | src/commands/version.rs:18-26 | any reordering of the commits (two lists with the same multiset) gives the same next version |
| Version.NextVersionMonotone | src/commands/version.rs:18-27 | more commits never give a smaller version triple |
| Version.MajorZeroIgnoresBreakingChores | src/commands/version.rs:18-27 | breaking commits that are neither `feat` nor `fix` leave a `0.y.z` base unchanged but bump the major version of a base with major > 0 |
| Version.MajorZeroBreakingFeature | src/commands/version.rs:18-23 | on a `0.y.z` base a breaking `feat` is a minor bump |
| Version.NextVersionExample | src/commands/version.rs:21-23 | `1.4.2` with a `feat`, a `fix` and a `chore` becomes `1.5.0` |
| Release.BumpImpliesChangelog | src/commands/version.rs:18-27 | a range that changes the version has a non-empty changelog |
| Release.ChangelogWithoutBump | src/commands/changelog.rs:29-32 | a breaking `chore` on a `0.y.z` base is listed under BREAKING CHANGES while the version stays the same |

## Left out

- Git access (`Repository::discover`, `revwalk`, `push_range`, `find_commit`), two-dot range reachability and revwalk ordering: the walked `(oid, message)` sequence is an input, and the errors of those calls are not modelled.
- The internals of `git_conventional` and `conventional` (header and footer grammar, how `breaking()` is derived): foreign libraries, taken as parameters.
- The text the library displays for non-`Value` footer separators (src/git.rs:85-86): it is the `display` field of `Git.FooterSeparator.Other`.
- Error message wording: errors are the datatypes `Git.CollectError` and `Scl.SclError` carrying the oid and the parser's diagnostic.
- Printing to standard output: the renderers return the text they would print.
- Argument parsing, subcommand dispatch (src/commands/scl.rs:70-75), the command wrappers and the GitHub client: no decision logic.
- The `conventional` commit record is modelled only by the fields the changelog and version commands read (type, description, breaking).
- The base-version argument parser in src/commands/version.rs (`VersionTagParser`) and `semver::Version::parse`: a call into a library.
- Version.NextVersion: version fields are unbounded naturals, so it does not model the overflow of `u64` at `major + 1`, `minor + 1` or `patch + 1`.
- Pre-release and build metadata of a version are kept as opaque text; their ordering and syntax are not modelled.
