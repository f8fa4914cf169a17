# Dutchie changelog and version engine in Dafny

Dutchie is a release helper for Node projects. Its engine turns a git history
into a Markdown changelog, `CHANGELOG.md`, and picks the next semantic version
of the project's `package.json`. This project models that engine and proves
properties of the model. It covers `lib/changelog.js` and `lib/version.js`:

- **Commit classification.** Merge and release commits are left out. A
  `feat:` commit asks for a minor release. A leading known `type:` prefix
  (Conventional Commits 1.0.0, items 1-2, without scopes) is recognised.
- **The line formatter** `createCommitMessage`. It shortens the hash,
  strips a trailing ref annotation such as ` (HEAD -> master)`, and wraps
  the type prefix in `__`.
- **The document manager.**
  - `getLastChangelogCommit` finds the newest recorded commit in the
    document.
  - `createChangelog` writes the first document.
  - `updateChangelog` chooses patch, minor or major, handles its two
    no-op cases, bumps the version and splices a new section in after the
    title.
- **The version calculator** `bumpVersion` (Semantic Versioning 2.0.0,
  items 6-8), with `getVersion` and `setVersion`.

The files:

- `text.dfy` (module `Text`): the JavaScript string and array behaviour the
  engine relies on, written out over `seq<char>`. It covers `indexOf`,
  `split` and `join` on one character, `parseInt` on decimal numerals,
  number-to-string, ASCII `toLowerCase` and `join('')`.
- `commits.dfy` (module `Commits`): the classifier and the line formatter.
  Every regular expression is an explicit predicate, and the known commit
  types are a parameter.
- `version.dfy` (module `Version`): the version arithmetic as functions,
  and `package.json` as the class `Package`. The class holds the metadata
  as a `map<string, string>` that `SetVersion` and `BumpVersion` reassign.
- `changelog.dfy` (module `Changelog`): the marker search and the document
  functions. It also holds the class `ChangelogFile`, whose `text` field is
  the file's contents. `CreateChangelog` and `UpdateChangelog` overwrite
  that field with the loops of the source.
- `cases.dfy` (module `Cases`): the repository's test expectation and worked
  examples.

The git history is a parameter. `CreateChangelog` takes the full log as a
sequence of commits. `UpdateChangelog` takes a function from the last
recorded short hash to the commits since it.

## Model

| member | source | states |
|---|---|---|
| `Text.IndexOf` | lib/changelog.js:129 | the first occurrence of a pattern at or after a start index, or none; no occurrence lies before the one returned |
| `Text.Split` | lib/version.js:32 | a split always has at least one part |
| `Text.SplitPartsLackSeparator` | lib/version.js:32 | no part of a split holds the separator |
| `Text.JoinSplit` | lib/version.js:32-52 | `join` undoes `split`: joining the parts of any text with the same separator gives the text back |
| `Text.SplitJoin` | lib/version.js:32-52 | `split` undoes `join` when no part holds the separator |
| `Text.JoinChars` | lib/version.js:52 | a character that is not the separator and occurs in no part does not occur in the join |
| `Text.ParseNatToString` | lib/version.js:38 | parsing the decimal rendering of a number gives the number back |
| `Text.ParseNatLeadingZero` | lib/version.js:38 | `parseInt` ignores a leading zero, so `09` is read as 9 |
| `Text.NatToString` | lib/version.js:38 | the rendering of a number is a non-empty run of digits; it starts with `0` exactly when the number is 0, and never has a leading zero |
| `Text.ConcatAppend` | lib/changelog.js:87 | `join('')` of two concatenated lists is the concatenation of their joins |
| `Text.LowerAsciiIdempotent` | lib/changelog.js:77 | lower-casing an already lower-cased message changes nothing |
| `Text.LowerAsciiAppend` | lib/changelog.js:77 | lower-casing works character by character, so it distributes over concatenation |
| `Commits.IsExcluded` | lib/changelog.js:26 | the blacklist test; `ExcludedIgnoresCase`, `ExcludedByOpening` and `ReleaseCommitExcluded` state that it ignores case and catches the three openings whatever follows |
| `Commits.IsFeature` | lib/changelog.js:20 | the case-sensitive `feat:` test; `FeatureIncluded` states that such a commit is never blacklisted, and `ReleaseKind` that it decides a minor release |
| `Commits.Included` | lib/changelog.js:76-78 | the kept commits are exactly the commits of the input that are not merge or release commits, and no more of them than the input holds |
| `Commits.IncludedAppend` | lib/changelog.js:105-107 | the filter distributes over concatenation, so the kept commits stay in history order |
| `Commits.IncludedIdempotent` | lib/changelog.js:105-107 | filtering twice removes nothing more |
| `Commits.ReleaseCommitExcluded` | lib/changelog.js:26 | the tool's own `release: v<version>` commit is always excluded, whatever the version text |
| `Commits.ExcludedIgnoresCase` | lib/changelog.js:26 | the blacklist is case-insensitive: a message and its lower-case form are excluded alike |
| `Commits.ExcludedByOpening` | lib/changelog.js:26 | a message whose opening lower-cases to `merge pull request`, `merge remote-tracking branch` or `release: v` is excluded, whatever follows |
| `Commits.FeatureIncluded` | lib/changelog.js:20 | a `feat:` commit is never blacklisted, so it always reaches the release-kind decision |
| `Commits.MatchedType` | lib/changelog.js:14-18 | a match is a known type whose `type:` opens the message; no match means no known type opens it |
| `Commits.MatchedTypeUnique` | lib/changelog.js:14-18 | when no type name holds a colon, the type that opens the message is the one matched, whatever the order of the list |
| `Commits.ConventionalTypesHaveNoColon` | lib/changelog.js:14-18 | no known type of `conventional-commit-types` holds a colon, so the uniqueness above holds for the shipped list |
| `Commits.FindArtifact` | lib/changelog.js:24 | the leftmost start of a whitespace, `(HEAD` or `(origin`, at least one non-`)` character, `)` at the end |
| `Commits.CleanMessage` | lib/changelog.js:46 | the cleaned message is a prefix of the message. It equals the message exactly when no annotation occurs. Otherwise it stops where the leftmost annotation starts |
| `Commits.CleanWithoutParen` | lib/changelog.js:24 | a message that does not end in `)` is left unchanged |
| `Commits.CleanStripsDecoration` | lib/changelog.js:45-46 | ` (HEAD…)` or ` (origin…)` after a subject without parentheses is removed and the subject is kept |
| `Commits.BareHeadKept` | lib/changelog.js:24 | ` (HEAD)` with nothing after the word is not an annotation |
| `Commits.Style` | lib/changelog.js:49-52 | with a matched type, the matched `type:` is wrapped in `__` and the rest is unchanged; without one, the message is unchanged |
| `Commits.StyleAddsOnlyUnderscores` | lib/changelog.js:49-52 | styling introduces no character other than `_` |
| `Commits.ShortHash` | lib/changelog.js:43 | the short hash is the first `min(7, length)` characters of the hash |
| `Commits.FormatLine` | lib/changelog.js:42-56 | `createCommitMessage`; `FormatLineIsOneLine`, `FormatTypedLine`, `FormatUntypedLine` and `Changelog.LineMarker` state its shape, its exact text and that the marker search reads its short hash back |
| `Commits.FormatLineIsOneLine` | lib/changelog.js:42-56 | a formatted line opens with `- `, ends with `]` and a newline, and holds no other newline when neither message nor hash holds one |
| `Commits.FormatTypedLine` | lib/changelog.js:42-56 | a message opening with a known `type:` and carrying no annotation gives `- __type:__ subject [abcdefg]` and a newline |
| `Commits.FormatUntypedLine` | lib/changelog.js:42-56 | a message with no known type gives `- ` + the cleaned message + ` [` + short hash + `]` and a newline |
| `Version.Increment` | lib/version.js:38 | the incremented component is a numeral whose value is one more, with no leading zero |
| `Version.BumpedComponents` | lib/version.js:33-50 | three components, each a decimal numeral |
| `Version.NumeralsSplitJoin` | lib/version.js:52 | numerals joined with dots split back into the same numerals |
| `Version.Bumped` | lib/version.js:30-52 | the new version splits into exactly the three computed components, so it is well-formed again |
| `Version.BumpedDigits` | lib/version.js:52 | the new version holds only digits and dots |
| `Version.BumpPatch` | lib/version.js:37-39 | patch goes up by one; major and minor keep their text |
| `Version.BumpMinor` | lib/version.js:41-44 | minor goes up by one, patch becomes `0`; major keeps its text |
| `Version.BumpMajor` | lib/version.js:46-50 | major goes up by one, minor and patch become `0` |
| `Version.BumpOther` | lib/version.js:37-52 | any other release kind gives back the first three components unchanged and drops the rest |
| `Version.BumpIncreases` | lib/version.js:37-50 | each of patch, minor and major gives a triple strictly greater in lexicographic order |
| `Version.Package.GetVersion` | lib/version.js:19 | the version is present exactly when the metadata holds the field, and is its value |
| `Version.Package.SetVersion` | lib/version.js:22-26 | only the `version` field changes, and reading it back gives the new value |
| `Version.Package.BumpVersion` | lib/version.js:30-55 | stores and returns the bumped version of the stored one; nothing else in the metadata changes |
| `Changelog.FindMarker` | lib/changelog.js:22 | the leftmost `[`, seven characters of `[a-z0-9]`, `]`, newline |
| `Changelog.LastChangelogCommit` | lib/changelog.js:59-62 | none exactly when the document holds no marker; otherwise seven marker characters |
| `Changelog.FirstMarker` | lib/changelog.js:59-62 | when a marker starts at an index and none starts before it, the search returns its seven characters |
| `Changelog.MarkerAfter` | lib/changelog.js:22 | text in front that holds no marker start leaves the answer to the text behind it |
| `Changelog.MarkerAfterHead` | lib/changelog.js:22 | a marker right after text without a newline is the first marker, since an earlier one would need a newline before it ends |
| `Changelog.LineMarker` | lib/changelog.js:42-62 | the marker search on a formatted line, whatever follows, returns the first seven characters of the hash |
| `Changelog.NewDocument` | lib/changelog.js:70-87 | the first document opens with the title and the heading of the version; with no included commit it is exactly those two |
| `Changelog.DocumentMarker` | lib/changelog.js:130-132 | on the title, a new section and any older text, the marker search returns the short hash of the section's first commit |
| `Changelog.NewDocumentMarker` | lib/changelog.js:65-88 | on a freshly created document, the marker search returns the short hash of the first included commit |
| `Changelog.EmptyBootstrapUnusable` | lib/changelog.js:65-96 | a history without included commits creates a document with no marker, so every later update stops at once |
| `Changelog.HasFeatureSnoc` | lib/changelog.js:110-115 | after one more commit, the feature flag is the old flag or whether that commit is a `feat:` commit |
| `Changelog.ReleaseKind` | lib/changelog.js:102-118 | major exactly when forced; minor exactly when not forced and some commit is a feature; patch exactly when neither |
| `Changelog.PreviousChanges` | lib/changelog.js:129 | the text after the first title, or the whole text when there is none; the old document is that text's prefix plus the title plus it |
| `Changelog.PreviousChangesAsWritten` | lib/changelog.js:129 | the text between the first and second title, to the end when there is no second one, and `"undefined"` when there is no title |
| `Changelog.AsWrittenTruncatesAtSecondTitle` | lib/changelog.js:129 | as written, a second title in the old text cuts everything from it onward |
| `Changelog.MentionedTitleSplit` | lib/changelog.js:129 | on a text that mentions the title again, the code as written keeps only what precedes the mention; the corrected splice keeps all of it |
| `Changelog.AsWrittenUndefinedTail` | lib/changelog.js:129 | a document with a marker and no title reaches the splice, and the code as written gives `"undefined"` as the old text |
| `Changelog.UpdatePreservesHistory` | lib/changelog.js:126-133 | after an update, the whole old text after the title follows the new section byte for byte |
| `Changelog.UpdatedDocument` | lib/changelog.js:130-132 | the updated document opens with the title and the heading of the new version; with no new line, the text after the old title follows at once |
| `Changelog.UpdatedDocumentMarker` | lib/changelog.js:121-133 | after an update, the marker search returns the first new commit, so the next update starts where this one ended |
| `Changelog.ChangelogFile.CreateChangelog` | lib/changelog.js:65-88 | the file becomes the title, the heading of the current version and one formatted line per included commit, in history order |
| `Changelog.ChangelogFile.CollectChanges` | lib/changelog.js:101-115 | one formatted line per commit, in order; minor when some commit is a feature, patch otherwise |
| `Changelog.ChangelogFile.UpdateChangelog` | lib/changelog.js:91-135 | the first no-op case: no marker changes neither file nor version. The second: no included commit since the marker changes neither, even when major is forced. Otherwise the kind is major if forced, minor on any `feat:` commit, else patch; the version is bumped by that kind and strictly grows; the file becomes the new section followed by the old text after the title. The version field must exist and be well-formed only on that release path, since the no-op cases never read it |
| `Cases.FormatLineExample` | test/changelog.test.js:16-21 | hash `8c52e96efb2b…` with `refactor: Updated docs; updated deps` gives `- __refactor:__ Updated docs; updated deps [8c52e96]` and a newline |
| `Cases.SplitExample` | lib/version.js:32 | `1.2.3` splits into `1`, `2`, `3` |
| `Cases.BumpPatchExample` | lib/version.js:37-39 | `1.2.3` becomes `1.2.4` |
| `Cases.BumpMinorExample` | lib/version.js:41-44 | `1.2.3` becomes `1.3.0` |
| `Cases.BumpMajorExample` | lib/version.js:46-50 | `1.2.3` becomes `2.0.0` |
| `Cases.LeadingZeroKept` | lib/version.js:33-39 | components that are not incremented keep their text: `01.2.09` becomes `01.2.10` |
| `Cases.MentionedTitleExample` | lib/changelog.js:129 | a released line that mentions `# Changelog` makes the code as written drop it and all older sections |

## Left out

- File access: `getChangelogPath`, `changelogExists`, `readChangelog`,
  `getPackageJSONPath` and reading or writing files. The changelog is the
  `text` field of `ChangelogFile`, and `package.json` is the `meta` map of
  `Package`.
- `git.log`: the history is a parameter, a sequence for the first document
  and a function of the last short hash for an update. The exclusive `from`
  of the range belongs to git.
- JSON parsing and pretty-printing. Metadata values other than strings are
  not modelled; the map holds strings.
- `Version.Package.BumpVersion` requires the stored version to have at
  least three dot-separated components, the first three plain decimal
  numerals. The source accepts more than that. `parseInt` reads only the
  leading digits of the one component it increments, and carries the other
  components over as text. So `1.2.3-beta.1` patches to `1.2.4`, `v1.2.3`
  patches to `v1.2.4`, and `1.2` bumps to `1.3.0` (minor) or `2.0.0`
  (major). `NaN` appears only when the incremented component has no leading
  digit or is missing, as in `1.2` patched to `1.2.NaN`. Pre-release and
  build suffixes, fewer than three components, and non-numerals in
  components the kind does not parse are outside the model. A missing
  field makes `split` throw; that path is not modelled either.
- `Version.Increment` uses unbounded naturals. JavaScript numbers lose
  precision above 2^53 and print large values in exponent form; neither is
  modelled.
- `Commits.IsExcluded` lower-cases ASCII letters only. JavaScript's
  `toLowerCase` also folds other letters, but no other letter can lower-case
  into the ASCII prefixes tested, with the exception of `K` (U+212A KELVIN
  SIGN), which is not modelled.
- Strings are sequences of characters, not of UTF-16 code units.
  Characters outside the Basic Multilingual Plane count as one here.
- `Commits.MatchedType` matches known commit types as literal words. The
  source builds a regular expression from them. That differs for names
  holding regular-expression syntax, which the keys of
  `conventional-commit-types` do not. It also differs for an empty list:
  the source's pattern is then `^():`, which matches any message opening
  with `:` and styles it as `__:__`, while the model matches nothing.
- `lib/release.js` (git and GitHub orchestration), `lib/commit.js` (an
  interactive prompt) and `lib/cli.js` (flag dispatch) are not part of this
  model.
- `async`/`await` ordering: each operation runs to completion here.
- The value returned by `updateChangelog` is `undefined` in every case. The
  model returns an `UpdateOutcome` that tells the two no-op cases and a
  release apart.

## Findings

| source | as written | input that shows it | evidently intended | confidence | as-written member | corrected member |
|---|---|---|---|---|---|---|
| lib/changelog.js:129 | `markdown.split(documentTitle)[1]` keeps only the text between the first and the second `# Changelog` | a commit message that mentions `# Changelog`, e.g. `docs: explain # Changelog`. Once its line is in the file, the next update drops that line's tail and every older section | keep everything after the first title | not executed | `Changelog.MentionedTitleSplit` | `Changelog.PreviousChanges` |
| lib/changelog.js:129 | with no `# Changelog` in the file, `[1]` is `undefined` and the template writes the word `undefined` | a changelog holding `[abcdef1]` and a newline but no title passes the marker check | keep the whole old text | not executed | `Changelog.AsWrittenUndefinedTail` | `Changelog.PreviousChanges` |

`UpdateChangelog` and `UpdatedDocument` use the corrected `PreviousChanges`.
`UpdatePreservesHistory` proves that the old text after the title survives
an update unchanged.
