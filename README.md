# jayconrod/misc in Dafny

This project models the decision logic of seven small tools from the
jayconrod/misc repository and proves properties of it. Everything around that
logic (network, file system, subprocesses, DOM) is cut away and becomes
parameters.

- `txtarmodserve` (module `TxtarModServe`, file `txtarmodserve.dfy`) is a Go
  module proxy that serves the GOPROXY protocol from a directory of txtar
  archives. The model covers:
  - `parsePath`, the request path parser;
  - the `ServeHTTP` dispatch to status and Content-Type;
  - the `list` filter over a directory listing;
  - the `mod` first-match-or-fallback rule;
  - the `zip` entry naming and the `fileName` mapping.

  The directory and its parsed archives are a value `Store`. `semver.Canonical`
  is the parameter `canonical`. The `module.UnescapePath`/`UnescapeVersion`
  decoding is the `!`-plus-lower-case case encoding, `Unescape`, proved inverse
  to `Escape`.
- `github-info` (module `GitHubInfo`) collects per-user and per-company
  counters of a repository's issues, pull requests, comments and stars. The
  class `Stats` has two map fields, and its methods update them in place. The
  invariant `Valid` says that each company's user, issue, pull request and
  comment counters are the sums over the users pointing to it, and that its
  star counter is at least the number of its starred users; every method
  preserves it. A Go panic (a
  duplicate `addUser`, or a nil user dereferenced) is the `panicked` result,
  with the tables unchanged.
- `add-3p-repo` (module `AddThirdPartyRepo`) edits `third_party/manifest.bzl`:
  - it validates the shape of the manifest statement;
  - it builds one entry per vendored build file;
  - it upserts the repository's entry into the dictionary (class
    `ManifestDict`);
  - it sorts the dictionary by key in place, using Go's byte-wise string
    order `LexLess`.
- `fixtestsum` (module `FixTestSum`) finds the `go.mod` and `go.sum` files in
  a txtar test archive. It then replaces the `go.sum` data, or splices a new
  `go.sum` in right after `go.mod`.
- `snippet` (module `Snippet`) sorts fetched Gerrit changes and GitHub pull
  requests under five fixed headings, then prints them as a Markdown
  snippet.
- `format-releases` (module `FormatReleases`) selects the archive downloads of
  the requested Go releases and prints one padded table line for each.
- the `linkext` browser extension (module `Popup`, JavaScript) contains the
  GitHub issue and Gerrit CL matchers. It also chooses the first match in
  `noteLink` and builds the text it copies.

Shared pieces:
- `Wrappers`: `Option` and `Result`.
- `GoStrings`: the `strings` package functions the tools use, with their
  first- and last-occurrence contracts. It also holds Go's `%q` quoting
  `GoQuote`, proved to read back by `UnquoteBody`, and the string order
  `LexLess`, proved irreflexive, total and transitive.
- `Txtar`: the archive value (a comment and a list of named files).

## Model

| member | source | states |
|---|---|---|
| TxtarModServe.ParsePath | cmd/txtarmodserve/txtarmodserve.go:170-220 | every failure carries the parsed path; the `NoLeadingSlash` error occurs exactly when the path does not start with `/`; success implies an operation in {info, latest, list, mod, zip}; a non-empty version equals its canonical form; an empty version only for `latest` and `list` |
| TxtarModServe.ParseErrorText | cmd/txtarmodserve/txtarmodserve.go:171-175 | the error text starts with `parsing path <path>: ` |
| TxtarModServe.ParsePathRejections | cmd/txtarmodserve/txtarmodserve.go:188-218 | for a version-bearing path the rejections come in source order: no `/@v/`, then no `.` after it, then the version decoding, emptiness and canonical checks, then the module path decoding; once all of these pass, the parse succeeds exactly when the extension is known, and otherwise fails with `InvalidExtension(ext)` |
| TxtarModServe.SplitSuffixed | cmd/txtarmodserve/txtarmodserve.go:181-186 | `<e>/@latest` splits into module `e`, empty version, `latest`; `<e>/@v/list` into module `e`, empty version, `list` (the `@latest` suffix is tested first) |
| TxtarModServe.SplitOfVersionPath | cmd/txtarmodserve/txtarmodserve.go:187-199 | in `<e>/@v/<v>.<ext>` the module path is the text before the first `/@v/`, the version the text before the last `.`, the extension the rest |
| TxtarModServe.FirstMarker | cmd/txtarmodserve/txtarmodserve.go:188 | the first `/@v/` in `e + "/@v/" + t` is right after `e` when `e` has no `@` |
| TxtarModServe.LastDot | cmd/txtarmodserve/txtarmodserve.go:194 | the last `.` in `v + "." + ext` is right after `v` when `ext` has none |
| TxtarModServe.SplitRest | cmd/txtarmodserve/txtarmodserve.go:177-199 | the suffix tests of `parsePath`; specified by `SplitSuffixed` (`@latest` before `/@v/list`) and, for every other path, by `SplitVersioned` |
| TxtarModServe.SplitVersioned | cmd/txtarmodserve/txtarmodserve.go:187-199 | the `/@v/<version>.<ext>` split; specified by `SplitOfVersionPath` (first marker, last dot) and by the rejection order in `ParsePathRejections` |
| TxtarModServe.Unescape | cmd/txtarmodserve/txtarmodserve.go:200-213 | the case decoding; specified by `UnescapeEscape` and `EscapeUnescape`: it inverts `Escape` on every representable string, and whatever it accepts is such an encoding |
| TxtarModServe.UnescapeEscape | cmd/txtarmodserve/txtarmodserve.go:200-213 | decoding the case encoding of an ASCII, `!`-free string gives the string back |
| TxtarModServe.EscapeUnescape | cmd/txtarmodserve/txtarmodserve.go:200-213 | every string that decodes is the encoding of what it decodes to, so the escaped form is unique |
| TxtarModServe.ParsePathRoundTrip | cmd/txtarmodserve/txtarmodserve.go:177-219 | the path a client forms for any well-formed request parses back to that request |
| TxtarModServe.ParsePathInverse | cmd/txtarmodserve/txtarmodserve.go:177-219 | every accepted path is exactly the client path of the request it parses to |
| TxtarModServe.NonCanonicalVersionRejected | cmd/txtarmodserve/txtarmodserve.go:206-208 | a request path with a non-empty, non-canonical version is rejected with `NotCanonical(version)` |
| TxtarModServe.ModulePrefix | cmd/txtarmodserve/txtarmodserve.go:97 | the listing prefix is non-empty and ends in `_` |
| TxtarModServe.PrefixSuffixDisjoint | cmd/txtarmodserve/txtarmodserve.go:100-103 | a name with such a prefix and the `.txt` suffix is long enough for both, so the slice at line 103 is in bounds |
| TxtarModServe.CandidateIff | cmd/txtarmodserve/txtarmodserve.go:99-106 | a directory entry contributes version `v` exactly when it is the archive name of `v` and `v` is non-empty and canonical |
| TxtarModServe.ListedVersionsAppend | cmd/txtarmodserve/txtarmodserve.go:99-109 | the versions of a concatenated listing are those of each part in order (directory order is kept) |
| TxtarModServe.ListedVersionsIff | cmd/txtarmodserve/txtarmodserve.go:97-109 | `v` is listed exactly when its archive name is in the directory and `v` is non-empty and canonical |
| TxtarModServe.List | cmd/txtarmodserve/txtarmodserve.go:86-111 | an unreadable directory is an error; otherwise the body is the listed versions in directory order, each followed by `\n` |
| TxtarModServe.FileName | cmd/txtarmodserve/txtarmodserve.go:165-168 | the archive path ends in `<modPath with / as _>_<version>.txt` |
| TxtarModServe.StoredVersionIsListed | cmd/txtarmodserve/txtarmodserve.go:97-106 | a non-empty canonical version whose archive name, as built for `fileName`, is in the directory appears in the `list` output |
| TxtarModServe.Info | cmd/txtarmodserve/txtarmodserve.go:113-126 | succeeds exactly when the archive file exists, echoing the version with the file's time |
| TxtarModServe.ModData | cmd/txtarmodserve/txtarmodserve.go:133-138 | the data of the first file named `go.mod`; with none, exactly `module <modPath>` |
| TxtarModServe.ParseFile | cmd/txtarmodserve/txtarmodserve.go:129 | `txtar.ParseFile`: a missing archive fails to open, an existing one may still fail to be read, and otherwise its archive is returned |
| TxtarModServe.Mod | cmd/txtarmodserve/txtarmodserve.go:128-139 | succeeds exactly when the archive file exists and can be read; otherwise fails with the `ParseFile` error; on success gives `ModData` of the archive's files |
| TxtarModServe.Zip | cmd/txtarmodserve/txtarmodserve.go:141-163 | a missing or unreadable archive is the `ParseFile` error; otherwise one entry per archive file, in archive order, named `<modPath>@<version>/<name>`, with the file's data unchanged |
| TxtarModServe.StatWithoutRead | cmd/txtarmodserve/txtarmodserve.go:113-163 | for an archive that exists but cannot be read, `info` succeeds (it only stats the file) while `mod` and `zip` fail with the read error |
| TxtarModServe.ZipEntries | cmd/txtarmodserve/txtarmodserve.go:148-158 | the same entry list as a function: its length and each entry |
| TxtarModServe.ServeHTTP | cmd/txtarmodserve/txtarmodserve.go:44-84 | the dispatch method gives exactly the response `Respond` specifies |
| TxtarModServe.Handle | cmd/txtarmodserve/txtarmodserve.go:62-83 | the per-operation handler choice; specified by `RespondStatus` and `StatWithoutRead`, and by the contracts of `List`, `Info`, `Mod` and `Zip` it dispatches to |
| TxtarModServe.Respond | cmd/txtarmodserve/txtarmodserve.go:44-84 | the response `ServeHTTP` writes; specified by `RespondRejectsMethods`, `RespondStatus` and `RejectedPathIgnoresStore`, and tied to the dispatch method by `ServeHTTP` |
| TxtarModServe.RespondRejectsMethods | cmd/txtarmodserve/txtarmodserve.go:45-48 | status 400 exactly for a method other than GET and HEAD |
| TxtarModServe.RespondStatus | cmd/txtarmodserve/txtarmodserve.go:50-83 | for GET/HEAD: 404 exactly for a parse error, `latest` or a handler error; otherwise 200 with text/plain (list, mod), application/json (info) or application/zip (zip) |
| TxtarModServe.RejectedPathIgnoresStore | cmd/txtarmodserve/txtarmodserve.go:50-61 | a rejected path or `@latest` gets the same response whatever the directory holds |
| GitHubInfo.TallyRemove | cmd/github-info/github-info.go:26-41 | a company sum over the users does not depend on the order users are taken in |
| GitHubInfo.TallyUpdate | cmd/github-info/github-info.go:114-117 | replacing or adding one user changes each company sum by the difference of that user's contributions |
| GitHubInfo.TallyNone | cmd/github-info/github-info.go:104-111 | a company no user points to sums to zero, so a newly created company record is consistent |
| GitHubInfo.Consistent | cmd/github-info/github-info.go:100-149 | one company record against the users: `users`, `issues`, `prs` and `comments` are the sums over its users, and `stars` is at least its starred users; kept by `InsertValid` and `BumpValid` |
| GitHubInfo.Stats.Valid | cmd/github-info/github-info.go:100-149 | the tables' invariant: every key is its record's name, every user's company is recorded, and every company record is `Consistent`; established by the constructor and required and ensured by every `Stats` method |
| GitHubInfo.InsertValid | cmd/github-info/github-info.go:100-118 | adding a new zero-counter user whose company gains one user keeps the tables' invariant |
| GitHubInfo.BumpValid | cmd/github-info/github-info.go:120-149 | bumping a user's counter and the same counter of its company keeps the tables' invariant |
| GitHubInfo.NewUser | cmd/github-info/github-info.go:114-117 | a new user has the login as name, the GitHub company, zero issues, PRs and comments, and no star |
| GitHubInfo.Stats.constructor | cmd/github-info/github-info.go:43-48 | `newStats`: both tables empty, invariant holds |
| GitHubInfo.Stats.AddUser | cmd/github-info/github-info.go:100-118 | panics exactly when the login is present (tables unchanged); otherwise adds `NewUser`; a company is created on first sight and its `users` goes up by exactly one; other companies are unchanged; with no company the company table is unchanged; the invariant is kept |
| GitHubInfo.Stats.AddIssue | cmd/github-info/github-info.go:120-133 | `prs` for a pull request and `issues` otherwise goes up by one on the user and on its company, if any; nothing else changes; an unknown author is a panic |
| GitHubInfo.Stats.AddComment | cmd/github-info/github-info.go:135-141 | `comments` goes up by one on the user and its company; nothing else changes |
| GitHubInfo.Stats.AddStar | cmd/github-info/github-info.go:143-149 | the user's `star` becomes true and its company's `stars` goes up by one on every call |
| GitHubInfo.AddedCompanies | cmd/github-info/github-info.go:104-113 | the company table after adding a user: unchanged without a company; otherwise the company gains one user, is created with one user on first sight, and no other company changes |
| GitHubInfo.Stats.EnsureUser | cmd/github-info/github-info.go:253-263 | a present user changes nothing; otherwise a failed fetch is returned and changes nothing; a fetched user whose login is already present panics with both tables unchanged; otherwise the user table gains `NewUser` under the fetched login and the company table becomes `AddedCompanies` of the fetched company |
| AddThirdPartyRepo.ManifestError | cmd/add-3p-repo/add-3p-repo.go:177-190 | every shape error starts with `third_party/manifest.bzl: ` |
| AddThirdPartyRepo.EntryKey | cmd/add-3p-repo/add-3p-repo.go:197 | the dictionary key of one build file; specified by `EntryKeyInverse`, which reads the relative path back |
| AddThirdPartyRepo.BuildEntry | cmd/add-3p-repo/add-3p-repo.go:197 | the entry `EntryKey: rel` for one build file; specified by `BuildEntries` |
| AddThirdPartyRepo.LoadManifest | cmd/add-3p-repo/add-3p-repo.go:154-191 | a missing file gives the single statement `manifest = {}`; a parse error is returned as is; a file is accepted exactly when it is non-empty and its first statement assigns a dict to the literal `manifest`, with the four distinct messages otherwise; accepted statements are kept |
| AddThirdPartyRepo.EntryKeyInverse | cmd/add-3p-repo/add-3p-repo.go:197 | the key is `@<ws>//third_party:<repo>/` + the relative path + `.in`, and the path can be read back from it |
| AddThirdPartyRepo.BuildEntries | cmd/add-3p-repo/add-3p-repo.go:193-203 | one entry per build path, in input order, mapping its key to its slash-form relative path |
| AddThirdPartyRepo.FindKey | cmd/add-3p-repo/add-3p-repo.go:213-224 | the index of the first entry whose key is the string `repo`, or -1 exactly when there is none; non-string keys never match |
| AddThirdPartyRepo.Upserted | cmd/add-3p-repo/add-3p-repo.go:212-227 | the replace-or-append of the repository entry; specified by `UpsertedShape` and `UpsertedIdempotent`, and proved equal to the loop by `ManifestDict.Upsert` |
| AddThirdPartyRepo.UpsertedShape | cmd/add-3p-repo/add-3p-repo.go:212-227 | the length is unchanged on a replace and grows by one on an append; every other entry stays in place; the new entry is present |
| AddThirdPartyRepo.UpsertedIdempotent | cmd/add-3p-repo/add-3p-repo.go:212-227 | upserting the same repository entry twice equals upserting it once |
| AddThirdPartyRepo.ManifestDict.Upsert | cmd/add-3p-repo/add-3p-repo.go:212-227 | the loop replaces the first string-keyed match, or appends; `replaced` is true exactly when there was a match |
| AddThirdPartyRepo.Swap | cmd/add-3p-repo/add-3p-repo.go:237-239 | exchanging two neighbours changes only those two positions |
| AddThirdPartyRepo.SwapPermutes | cmd/add-3p-repo/add-3p-repo.go:237-239 | the exchange is a permutation |
| AddThirdPartyRepo.SwapStep | cmd/add-3p-repo/add-3p-repo.go:237-239 | moving an entry below a neighbour with a larger key keeps the insertion invariant |
| AddThirdPartyRepo.InsertDone | cmd/add-3p-repo/add-3p-repo.go:237-239 | when the moved entry's lower neighbour is not larger, the prefix is sorted |
| AddThirdPartyRepo.InsertIntoPrefix | cmd/add-3p-repo/add-3p-repo.go:237-239 | one insertion step extends the sorted prefix by one and permutes the list |
| AddThirdPartyRepo.ManifestDict.SortByKey | cmd/add-3p-repo/add-3p-repo.go:229-239 | afterwards the list is ordered by string key (non-string keys as "") and is a permutation of the old list |
| AddThirdPartyRepo.UpdateManifest | cmd/add-3p-repo/add-3p-repo.go:153-239 | a load error is returned; otherwise the first statement stays a manifest assignment whose dict is sorted by key and is a permutation of the upserted dict; the other statements are unchanged |
| AddThirdPartyRepo.UpdatedManifestHasRepo | cmd/add-3p-repo/add-3p-repo.go:205-239 | the repository entry as built is in the final dictionary, which has the old size or one more |
| GoStrings.QuoteChar | cmd/txtarmodserve/txtarmodserve.go:207 | `strconv.Quote` on one character: `"` and `\` behind a backslash, C escapes or `\x` hex for control characters, so the output holds no control character, and it starts with a backslash exactly for a control character, `"` or `\` |
| GoStrings.QuoteBody | cmd/txtarmodserve/txtarmodserve.go:207 | the quoted characters in order: at least as long as the input, with no control character |
| GoStrings.GoQuote | cmd/txtarmodserve/txtarmodserve.go:207-217 | `%q`: the quoted body between double quotes, with no control character anywhere |
| GoStrings.UnescapeEscapeLetter | cmd/txtarmodserve/txtarmodserve.go:207 | each single-letter escape `strconv.Quote` writes reads back as its character |
| GoStrings.UnquoteChar | cmd/txtarmodserve/txtarmodserve.go:207 | each character's escape reads back as that character, whatever follows |
| GoStrings.UnquoteQuote | cmd/txtarmodserve/txtarmodserve.go:207-217 | quoting is injective: the quoted text reads back as the original string |
| GoStrings.LexLessTotal | cmd/add-3p-repo/add-3p-repo.go:238 | Go's string `<` is total and asymmetric |
| GoStrings.LexLessTransitive | cmd/add-3p-repo/add-3p-repo.go:238 | Go's string `<` is transitive |
| GoStrings.LexLeTransitive | cmd/add-3p-repo/add-3p-repo.go:238 | "not greater" is transitive, which the sortedness of the result relies on |
| FixTestSum.SumName | cmd/fixtestsum/fixtestsum.go:57-60 | the sum name ends in `go.sum`, and is `go.sum` when the module name has no `/` |
| FixTestSum.SumNameSameDir | cmd/fixtestsum/fixtestsum.go:57-60 | the sum file lies in the module file's directory |
| FixTestSum.LastNamed | cmd/fixtestsum/fixtestsum.go:61-68 | the last index with the name, or -1 |
| FixTestSum.ModIndex | cmd/fixtestsum/fixtestsum.go:61-68 | the last index named `modName` and not counted as the sum file; -1 exactly when there is none or the names coincide |
| FixTestSum.FindIndices | cmd/fixtestsum/fixtestsum.go:61-68 | the scan yields `LastNamed` for the sum file and `ModIndex` for the module file |
| FixTestSum.FixedFiles | cmd/fixtestsum/fixtestsum.go:95-99 | the fixed file list; specified by `FixedReplaces`, `FixedInserts` and `FixIdempotent` |
| FixTestSum.FixedReplaces | cmd/fixtestsum/fixtestsum.go:95-96 | with an existing sum file only its data changes: count, names and every other file unchanged |
| FixTestSum.FixedInserts | cmd/fixtestsum/fixtestsum.go:97-99 | otherwise the new sum file is at `modIndex + 1`, the count grows by one, and removing it gives the old list |
| FixTestSum.FixError | cmd/fixtestsum/fixtestsum.go:39-44 | every error starts with `fixing test <path>: ` |
| FixTestSum.FixTest | cmd/fixtestsum/fixtestsum.go:39-101 | the failures are reported in source order, each wrapped: creating the temporary directory, parsing the archive, extracting its files, a missing module file (`go.mod file not found`), `go list`, reading the new `go.sum`, writing the archive back; otherwise the archive written back has the fixed file list |
| FixTestSum.FixIdempotent | cmd/fixtestsum/fixtestsum.go:57-100 | fixing a fixed archive with the same `go.sum` changes nothing |
| Snippet.ProjectIndex | cmd/snippet/snippet.go:85-92 | `[dev.fuzz]` in the subject sends a change to Fuzzing, before project `website` sends it to Documentation; all else to cmd/go |
| Snippet.StatusText | cmd/snippet/snippet.go:93-98 | NEW gives `pending`, DRAFT gives `draft`, anything else "" |
| Snippet.GerritEntry | cmd/snippet/snippet.go:100-105 | the link is the change number; the address is `https://go-review.googlesource.com/c/<project>/+/<number>`; status and subject carried over |
| Snippet.GitHubEntry | cmd/snippet/snippet.go:116-123 | the link is `#<number>`; the address is `https://github.com/<org>/<repo>/pull/<number>`; no status; the title is the description |
| Snippet.GitHubChanges | cmd/snippet/snippet.go:116-124 | one line per pull request, in input order |
| Snippet.GerritChanges | cmd/snippet/snippet.go:81-106 | the Gerrit lines under one heading; specified by `GerritChangesAppend`, `GerritChangesSingle`, `GerritChangesSound` and `GerritChangesComplete` |
| Snippet.GerritChangesAppend | cmd/snippet/snippet.go:81-106 | selection keeps input order: the selected changes of a concatenation are those of each part in order |
| Snippet.GerritChangesSingle | cmd/snippet/snippet.go:81-106 | a listed change goes under exactly its own heading, an abandoned or release-branch change under none |
| Snippet.GerritChangesSound | cmd/snippet/snippet.go:81-106 | every line under a heading comes from a listed change that belongs there |
| Snippet.GerritChangesComplete | cmd/snippet/snippet.go:81-106 | every listed change appears under its heading |
| Snippet.Projects | cmd/snippet/snippet.go:66-72 | five headings in the order cmd/go, Fuzzing, Documentation, rules_go, gazelle |
| Snippet.AddChange | cmd/snippet/snippet.go:100-105 | appending through the pointer changes only the chosen heading, at its end |
| Snippet.OrganizeGerrit | cmd/snippet/snippet.go:81-106 | after the Gerrit loop each of the first three headings holds exactly its selected changes in order, and the GitHub headings are empty |
| Snippet.AppendPullRequests | cmd/snippet/snippet.go:116-124 | the pull request loop appends that repository's lines to its heading and changes nothing else |
| Snippet.Organize | cmd/snippet/snippet.go:81-125 | the organising loops build exactly `Projects` |
| Snippet.StatusSuffix | cmd/snippet/snippet.go:131-134 | the ` (status)` part is empty exactly when the status is |
| Snippet.ChangeLine | cmd/snippet/snippet.go:130-135 | one change's Markdown line; specified by `StatusSuffix` and `ChangeLineIsOneLine` |
| Snippet.FormatProject | cmd/snippet/snippet.go:129-137 | one project prints `## title`, a blank line, its change lines in order, and a blank line |
| Snippet.Format | cmd/snippet/snippet.go:127-138 | the printing loop writes `SnippetText` |
| Snippet.ChangeLineIsOneLine | cmd/snippet/snippet.go:135 | a change without newlines in its fields takes exactly one line |
| Snippet.ChangeLinesCount | cmd/snippet/snippet.go:130-136 | the change lines of a heading hold one newline per change |
| Snippet.SnippetLineCount | cmd/snippet/snippet.go:127-138 | the snippet has three lines per heading plus one per change |
| Snippet.Run | cmd/snippet/snippet.go:52-138 | the first fetch error in the order Gerrit, rules_go, gazelle; otherwise the snippet of the organised changes |
| FormatReleases.PrintedArch | cmd/format-releases/format-releases.go:81-83 | `armv6l` is printed as `arm`; every other arch is unchanged |
| FormatReleases.KeyText | cmd/format-releases/format-releases.go:84 | the key text is eight spaces, the quoted `<os>_<arch>` and a colon; its length is 12 + the lengths of os and arch |
| FormatReleases.Padding | cmd/format-releases/format-releases.go:85 | the `%*s` padding is `29 - n` spaces for a key of length n up to 29, and `n - 29` spaces beyond |
| FormatReleases.Line | cmd/format-releases/format-releases.go:84-85 | the line printed for one archive; specified by `KeyText`, `Padding` and `LineShape` |
| FormatReleases.LineShape | cmd/format-releases/format-releases.go:84-85 | a line starts with the key, ends with `(<quoted filename>, <quoted sha>),` and a newline, and puts the tuple at column 29 when the key is shorter |
| FormatReleases.FileLinesArchivesOnly | cmd/format-releases/format-releases.go:77-86 | one line per archive file, and every line is the line of an archive of the release |
| FormatReleases.FileLines | cmd/format-releases/format-releases.go:77-86 | the lines of one release; specified by `FileLinesArchivesOnly` and proved equal to the loop by `PrintFiles` |
| FormatReleases.ReleaseLines | cmd/format-releases/format-releases.go:65-87 | the lines of every requested release; specified by `ReleaseLinesAppend`, `ReleaseLinesTagOrder` and `ReleaseLinesSkip`, and proved equal to the loops by `PrintReleases` |
| FormatReleases.ReleaseLinesAppend | cmd/format-releases/format-releases.go:65-87 | output follows the order of the versions |
| FormatReleases.ReleaseLinesTagOrder | cmd/format-releases/format-releases.go:65-75 | only which tags are given matters, not their order or repetition |
| FormatReleases.ReleaseLinesSkip | cmd/format-releases/format-releases.go:73-75 | a version equal to no tag contributes nothing |
| FormatReleases.ConcatAppend | cmd/format-releases/format-releases.go:84-85 | printing the lines of two parts prints each part's text in turn |
| FormatReleases.PrintReleases | cmd/format-releases/format-releases.go:65-87 | the nested loops with `versionFound` print exactly the lines of the versions equal to some tag, in version order |
| FormatReleases.PrintFiles | cmd/format-releases/format-releases.go:77-86 | the file loop prints exactly the archive lines |
| FormatReleases.Run | cmd/format-releases/format-releases.go:36-87 | no tags is the error `no versions specified`, before anything is fetched; a fetch or decode error is returned; otherwise the printed text |
| Popup.DigitRun | linkext/popup.js:54 | the greedy `\d+` run: all digits from a position up to the first non-digit |
| Popup.FindNumbered | linkext/popup.js:54 | the leftmost position where the literal is followed by a digit |
| Popup.NumberAfter | linkext/popup.js:54-57 | no match exactly when the literal followed by a digit occurs nowhere; the capture is a non-empty digit string |
| Popup.NumberAfterSpec | linkext/popup.js:66-69 | the capture follows the leftmost such literal, and a non-digit or the end follows the capture |
| Popup.LineEnd | linkext/popup.js:72 | where `.` stops: the first line terminator or the end |
| Popup.LastTail | linkext/popup.js:72 | the last position on the line where ` (I<hex>) · Gerrit Code Review` matches |
| Popup.MatchFrom | linkext/popup.js:72 | from a start, the greedy `(.*)` ends at the last tail on the line, and no tail lies beyond it |
| Popup.LeftmostMatch | linkext/popup.js:72 | the leftmost start with a match and its capture end |
| Popup.GerritSubject | linkext/popup.js:72-75 | the captured subject; specified by `GerritSubjectSpec` and `GerritSubjectOfChangeTitle` |
| Popup.GerritSubjectSpec | linkext/popup.js:71-75 | the description is "" with no match anywhere; otherwise it is the text from the leftmost start to the last tail on that line, without line terminators, and no earlier start matches |
| Popup.GerritSubjectOfChangeTitle | linkext/popup.js:72-75 | a one-line title `<subject> (I<hex>) · Gerrit Code Review` matches from its first character |
| Popup.HexRun | linkext/popup.js:72 | the `[0-9a-f]+` run up to the first non-hex character |
| Popup.GitHubMatch | linkext/popup.js:53-63 | null exactly when the URL has no `github.com/golang/go/issues/<digits>`; the link is `#<digits>`; the description is the title before its first ` ·`, or the whole title |
| Popup.GerritMatch | linkext/popup.js:65-77 | null exactly when the URL has no `go-review.googlesource.com/c/go/+/<digits>`; otherwise the link is `CL <digits>` and the description is the captured subject |
| Popup.FirstMatch | linkext/popup.js:12-19 | the result of the first matcher that matches, with every earlier one null; none exactly when all are null |
| Popup.FirstMatchOrder | linkext/popup.js:1-4 | the GitHub matcher is tried before the Gerrit one |
| Popup.ChooseLink | linkext/popup.js:10-19 | the loop takes the first match's link and description, or the tab title and "" |
| Popup.CopiedText | linkext/popup.js:25-30 | ` - description` is added only for a non-empty description |
| Popup.NoteLink | linkext/popup.js:6-30 | the copied text for each combination of matches |

## Left out

- Network, file system, subprocesses, flags and the HTTP listener are not modelled. Their results are parameters: the `Store`, `fetched`, the outcome parameters of `FixTest`, `src`, and the `Result` arguments of `Snippet.Run`.
- `semver.Canonical` is the uninterpreted parameter `canonical`, because it is library behaviour. Nothing is assumed of it, not even idempotence.
- TxtarModServe.Unescape: models only the case decoding shared by `module.UnescapePath` and `module.UnescapeVersion`. It leaves out their `CheckPath`/`CheckVersion` validation, since golang.org/x/mod is not part of this model.
- txtar parsing and formatting, and the byte layout of zip archives, are not modelled. An archive is a list of named files, and a zip is its list of entries.
- TxtarModServe.Info: the RFC 3339 time and the JSON encoding are taken as given, as the stored `modTime` string and the fixed layout `InfoJson`.
- GoStrings.QuoteChar: models `strconv.Quote` for ASCII only. Characters from 0x80 up are copied unchanged. Go escapes invalid UTF-8 and runes that are not printable by Unicode's tables; neither UTF-8 nor those tables are modelled.
- TxtarModServe.ParseFile: a read failure carries the text given in the `Store`, because the real text depends on the operating system.
- TxtarModServe.HandlerErrorText: the `*os.PathError` text is represented by a fixed form. The real text depends on the operating system.
- TxtarModServe.FileName: `filepath.Join` is modelled only for a clean directory that does not start with `..`.
- HEAD requests are answered with a body like GET; the response writer's suppression of the HEAD body is not modelled.
- GitHubInfo: counters are unbounded naturals, which matches Go's 64-bit `int` for any realistic count.
- GitHubInfo.Stats: `writeCsv` is not modelled, because map iteration order is unspecified. `processIssues`, `processComments`, `processStars` and pagination are network loops and are not modelled either.
- GitHubInfo.Consistent: company `stars` counts calls to `addStar`, not starred users. The invariant therefore only bounds it from below by the number of starred users.
- AddThirdPartyRepo: the Starlark tree is reduced to the node kinds the update inspects. Every dictionary element is a key/value entry, so the panic of the type assertion at line 214 on any other element is not modelled.
- AddThirdPartyRepo.ManifestDict.SortByKey: `sort.Slice` is not stable and its result order among equal keys is unspecified. The model sorts by insertion sort and proves only the `sort.Slice` contract: ordered by key, and a permutation of the input.
- AddThirdPartyRepo.BuildEntries: `filepath.Rel` plus `ToSlash` is the parameter `relSlash`. The ignored `Rel` error is not modelled.
- The "no string?" diagnostic written to stderr at line 232 is not modelled. Neither are `bazel fetch`, locating the repository, copying files, nor `build.Format` and the final write.
- FixTestSum.SumName: `path.Join(path.Dir(modName), "go.sum")` is modelled as the module name up to its last `/` plus `go.sum`. This matches the cleaned result for clean names only (for example, not for `./go.mod`).
- FixTestSum.FixTest: creating and removing the temporary directory, extracting files into it, running `go list` and writing the archive are effects, given only by their outcomes: the parameters `tempDirError`, `parsed`, `extractError`, `goListError`, `readSum` and `writeError`. The error of the deferred `os.RemoveAll` is ignored by the source and is not modelled.
- FixTestSum.FixTest: the extraction loop writes files while it scans for `go.mod` and `go.sum`, so a write failure is reported before `go.mod file not found`. `extractError` stands for the first failure of that loop.
- Snippet: the concurrent fetch (goroutines and `sync.WaitGroup`) is not modelled. Neither is the error wrapping inside the fetch functions, nor the sort of the Gerrit changes after fetching; its comparator compares an element with itself, so no order can be claimed. The changes are taken in the order given.
- Snippet.Organize: the source's loop over the two GitHub repositories is modelled as two calls of `AppendPullRequests`, one per repository, in the same order.
- FormatReleases: `%q` quoting is the parameter `quote`. The byte count returned by `Printf` is the length of the key as a character string, which agrees with it for ASCII `os` and `arch` values.
- Popup: JavaScript strings are UTF-16 code units, and the model's are Unicode scalar values. A lone surrogate cannot be represented. Every capture starts at a line start or after an ASCII literal, and ends before an ASCII tail or a line terminator, or at the end, so the captured text is the same.
- Popup: the DOM elements, the selection, the clipboard and the tab query are not modelled. `NoteLink` returns the text that is copied.
