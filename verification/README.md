# Release scripts and module registration of a NestJS Cloudinary wrapper

This project models the logic core of a NestJS module that wraps the Cloudinary SDK.

- **Version bumping** (`scripts/version-bump.js`). Commit subjects are classified by the
  conventional-commit markers into a `major`, `minor` or `patch` bump. `M.m.p` is turned
  into the next version.
- **Changelog generation** (`scripts/update-changelog.js`). `"hash message"` lines are
  sorted into four buckets: breaking, features, fixes and others. A Markdown entry is
  rendered with one section per non-empty bucket. The entry is spliced into the changelog
  text under the `## [Unreleased]` header.
- **Module registration** (`src/cloudinary.module.ts`). `forRoot` overlays the caller's
  options on the defaults with object-spread semantics. `forRoot` and `forRootAsync`
  describe the module's providers, exports and imports to the framework.

Modules:

- `Optional`: `Option`, for values that may be missing.
- `Text`: the JavaScript string operations used, namely `includes`, `startsWith`,
  `indexOf`, `split` and `join`.
- `Decimal`: decimal rendering and reading of naturals.
- `ConventionalCommits`: the shared markers.
- `VersionBump`: the bump and the version arithmetic.
- `Changelog`: commit parsing, categorisation and entry rendering.
- `ChangelogReader`: a reader for rendered entries, used to state that rendering loses
  nothing.
- `ChangelogSplice`: the insertion into the changelog text.
- `CloudinaryModule`: options resolution and the two registrations.

Strings are sequences of Unicode code points. The section titles carry the same emoji as
the script: U+26A0, U+2728, U+1F41B and U+1F527.

## Model

| member | source | states |
|---|---|---|
| VersionBump.DetermineVersionBump | scripts/version-bump.js:30-63 | The loop stops at the first breaking commit, yet its result is independent of that. The bump is major exactly when some commit contains `BREAKING CHANGE` or `!:`. It is minor exactly when no commit does and some commit starts with `feat:` or `feat(`. It is patch otherwise, including for fixes only, for no conventional prefix and for an empty list. The result always equals the order-free reference classification. |
| VersionBump.BumpIgnoresOrder | scripts/version-bump.js:35-51 | Any permutation of the commit list gives the same bump. |
| VersionBump.BumpNameRoundTrip | scripts/version-bump.js:74-84 | Each bump name selects its own case of the switch, and every other string selects the patch case (`default`). |
| VersionBump.NextVersion | scripts/version-bump.js:71-85 | The new (major, minor, patch) triple is strictly later than the old one in lexicographic order. |
| VersionBump.NextVersionIsLeast | scripts/version-bump.js:75-84 | The new version is the least version that raises the old one at the bump's level. Hence a major bump gives `(M+1).0.0`, a minor bump `M.(m+1).0` and a patch bump `M.m.(p+1)`, and no version in between raises the old one at that level. |
| VersionBump.ParseVersionString | scripts/version-bump.js:71 | Splitting a rendered version on `.` and reading the first three components gives the triple back. |
| VersionBump.ParseVersionWithTail | scripts/version-bump.js:71 | Components after the third (a `1.2.3.4` version) are ignored by the three-name destructuring. |
| VersionBump.UpdateVersionOnCanonical | scripts/version-bump.js:71-85 | For a version string `M.m.p` and any bump argument, the string written back is the rendering of the next version for the bump that argument selects. |
| Decimal.ToNatFromNat | scripts/version-bump.js:71 | Converting the decimal rendering of a natural with `Number` gives that natural back. |
| Changelog.ParseCommitLine | scripts/update-changelog.js:50-51 | The hash contains no space. For a line with a space, the hash is the text before the first space and `hash + " " + message` is the line. For a line without one, the hash is the whole line and the message is empty. |
| Changelog.ParseCommits | scripts/update-changelog.js:41-65 | The loop's four buckets equal the reference categorisation of the lines. |
| Changelog.CategorizePartitions | scripts/update-changelog.js:49-62 | Every commit goes into exactly one bucket. The bucket sizes add up to the number of input lines, and together the buckets hold exactly the parsed commits (as a multiset). |
| Changelog.CommitLandsInOneBucket | scripts/update-changelog.js:53-61 | A commit is in a bucket if and only if that bucket is its message's category. A message with `BREAKING CHANGE` or `!:` goes to breaking even when it starts with `feat:` or `fix:`. |
| Changelog.CategorizeKeepsOrder | scripts/update-changelog.js:49-62 | Cutting the input anywhere, each bucket is the bucket of the first part followed by that of the second, so commits keep their input order within a bucket. |
| Changelog.GenerateChangelogEntry | scripts/update-changelog.js:68-69 | The entry starts with `## [version] - date` followed by a blank line. |
| Changelog.EntryAsLines | scripts/update-changelog.js:68-104 | The entry is, line by line: the header and a blank line, then for each non-empty bucket in the order breaking, features, fixes, others, its title, a blank line, one `- message (hash)` line per commit in bucket order, and a blank line. |
| Changelog.HeadingIffNonEmpty | scripts/update-changelog.js:71-101 | Each section title appears in the entry if and only if its bucket is non-empty. |
| Changelog.TitlesDistinct | scripts/update-changelog.js:72-96 | The four section titles differ, so a title identifies its bucket. |
| ChangelogReader.BulletRoundTrip | scripts/update-changelog.js:74 | A bullet line determines the commit it was rendered from, when the hash has no `(` and neither the hash nor the message contains a newline. |
| ChangelogReader.HeaderRoundTrip | scripts/update-changelog.js:69 | The header line determines the version and the date, when the version has no `]`. |
| ChangelogReader.EntryRoundTrip | scripts/update-changelog.js:68-104 | Reading back a rendered entry gives the version, the date and all four buckets with their commits in order. So each commit produces exactly one bullet in its own section, and nothing else appears. This holds when no hash contains `(`, no text contains a newline and the version has no `]`. |
| ChangelogSplice.InsertEntryAsWritten | scripts/update-changelog.js:128-138 | Without the header, the result is content + `"\n"` + entry. When the first header's line ends with a newline, the blank line and the entry go right after that newline. When the header line is the unterminated last line, the entry goes at position 0. |
| ChangelogSplice.HeaderAtEndPrependsEntry | scripts/update-changelog.js:131 | On `# Changelog\n\n## [Unreleased]` the script puts the entry before the title of the file. |
| ChangelogSplice.InsertEntryPlacement | scripts/update-changelog.js:128-138 | The corrected splice places the entry as the script does, except that a header on the unterminated last line gets the entry after it. |
| ChangelogSplice.InsertEntryAsWrittenKeepsContent | scripts/update-changelog.js:128-138 | The script's splice only inserts: its result is prefix + `"\n"` + entry + suffix, where prefix + suffix is the old text. When the first header is on the unterminated last line, the cut is at 0, so the prefix is empty. |
| ChangelogSplice.InsertEntryKeepsContent | scripts/update-changelog.js:131-135 | For the corrected splice, the result is prefix + `"\n"` + entry + suffix, where prefix + suffix is the old text. The old text up to the end of the first header stays in front of the entry. |
| ChangelogSplice.InsertEntryAgreesAsWritten | scripts/update-changelog.js:128-138 | Whenever the header line is terminated or absent, the corrected splice and the script's agree. |
| ChangelogSplice.HeaderAtEndAppendsEntry | scripts/update-changelog.js:131 | Under the correction, the unterminated-header example gets the entry after the header. |
| ChangelogSplice.InsertUnderFinalHeader | scripts/update-changelog.js:115-135 | Text shaped like the default changelog, with the first header followed by a blank line at the end, becomes that text + entry + `"\n"` under both the script's splice and the corrected one. |
| ChangelogSplice.DefaultTakesEntryAtEnd | scripts/update-changelog.js:115-135 | The default text's first header is its last line but one, so both splices turn it into the default text + entry + `"\n"`. |
| ChangelogSplice.UpdateChangelog | scripts/update-changelog.js:107-139 | The script's `updateChangelog` applies the script's splice to an existing file. For a missing file the result is the default text + entry + `"\n"`, with the entry under the header. |
| ChangelogSplice.UpdateChangelogCorrected | scripts/update-changelog.js:107-139 | The same with the corrected splice. A missing file gives the same text as the script. |
| CloudinaryModule.ResolveOptions | src/cloudinary.module.ts:14-20 | The resolved options have exactly the caller's fields and the four default fields. Every field the caller supplies wins, even when its value is `undefined`. Every default field the caller omits keeps its default, so an omitted `secure` is `true`. A field that is neither supplied nor a default stays absent. |
| CloudinaryModule.ResolveIdempotent | src/cloudinary.module.ts:14-20 | Resolving already resolved options changes nothing. |
| CloudinaryModule.ForRoot | src/cloudinary.module.ts:8-27 | There are exactly two providers: the resolved options under the options token, then the service. Only the service is exported, the module is global and there is no `imports` field. |
| CloudinaryModule.ForRootAsync | src/cloudinary.module.ts:29-44 | There are exactly two providers: the caller's factory under the options token, registered unchanged and never called, then the service. `inject` and `imports` are the caller's lists, or `[]` when omitted. Only the service is exported and the module is global. |
| CloudinaryModule.RegistrationsAgree | src/cloudinary.module.ts:8-44 | The two registrations are equal apart from how the options are provided and the `imports` field, and they register the same service provider. |

## Left out

- Git, the file system, the clock and the console are not modelled. This covers:
  - `getCommitsSinceLastTag` and its `trim` filter;
  - `getCurrentVersion` and reading or writing `package.json` and `CHANGELOG.md`;
  - `getCurrentDate`, logging and `process.exit`.

  The commit list, the version, the date and the existing changelog text (None when the
  file is missing) are parameters.
- The `main` drivers are not modelled, including their early return when there are no
  commits.
- `src/cloudinary.service.ts` only forwards to the Cloudinary SDK.
- `src/constants.ts` is not part of this model. The token's value `CLOUDINARY_MODULE_OPTIONS`
  is taken from `test/constants.spec.ts:10`.
- The framework's dependency-injection container is left out: resolving providers,
  instantiating the service and calling the async factory. The factory, the injection
  tokens and the imported modules are type parameters, so the model cannot call or inspect
  them.
- Type-only files (`src/interfaces`, `src/types`, `src/index.ts`) are left out. Options are
  a map from field name to a string, boolean, number or `undefined` value.
- VersionBump.ParseVersion: reads a component only when it is a non-empty string of
  decimal digits, and requires all three components; otherwise it returns None and
  UpdateVersion writes nothing. The script's `Number` accepts more: `''` gives 0,
  surrounding whitespace is ignored, and signs, exponents, hexadecimal, binary and octal
  literals and `Infinity` are read (`-1`, `1e2`, `0x1f`, `0b11`, `0o17`), so a patch bump of
  `1.2.0b11` gives `1.2.4`. Text that is not a JavaScript numeric literal gives `NaN`,
  which the script writes out where the bump reads that component: a minor bump of `x.1.2`
  gives `NaN.2.0`, while a major bump of `1.x.3` gives `2.0.0`. A missing component is `undefined`, which likewise
  matters only where the bump reads it: a major bump of `1` gives `2.0.0` and a minor bump
  of `1.2` gives `1.3.0`, while a patch bump of `1.2` gives `1.2.NaN`. The model does not
  follow any of these inputs. Floating-point precision of very large components is not
  modelled either.
- CloudinaryModule.ForRootAsync: `options.imports || []` and `options.inject || []` also
  replace the other falsy values (`null`, `false`, `0`, `''`) with `[]`. The model's
  `imports` and `inject` are only "given" (a list) or "omitted". The argument is typed `any`,
  so `forRootAsync(undefined)` and `forRootAsync(null)` are accepted by the compiler and throw
  a `TypeError` when `options.imports` is read. The model always has an options record and
  does not model that exception.
- Text positions are code points. JavaScript counts UTF-16 code units, which differ for
  characters outside the Basic Multilingual Plane. The positions only move the splice within
  the same text, so its results are the same strings.
- ChangelogReader.BulletRoundTrip: requires that the hash contains no `(` and that neither
  the hash nor the message contains a newline. Otherwise two commits can render to the
  same bullet, such as hash `b) (c` with message `a` and hash `c` with message `a (b)`
  (`ChangelogReader.BulletsCanCollide`).
- ChangelogReader.HeaderRoundTrip: requires that the version contains no `]`. Otherwise two
  headers can coincide, such as version `a] - b` with date `c` and version `a` with date
  `b] - c` (`ChangelogReader.HeadersCanCollide`).
- ChangelogReader.EntryRoundTrip: requires that hashes contain no `(`, that no text contains
  a newline and that the version contains no `]`. Otherwise the rendered entry is ambiguous.

## Findings

| source | as written | input that shows it | evidently intended | confidence | as-written member | corrected member |
|---|---|---|---|---|---|---|
| scripts/update-changelog.js:131 | `insertPosition` is `indexOf('\n', unreleasedIndex + 15) + 1`. When no newline follows the header, this is `-1 + 1 == 0`, so the entry is inserted at the start of the file. | `CHANGELOG.md` containing `# Changelog\n\n## [Unreleased]` with no final newline. | Insert after the header line, which here means at the end of the text after the header. | medium, not executed | ChangelogSplice.HeaderAtEndPrependsEntry | ChangelogSplice.InsertEntryPlacement |
