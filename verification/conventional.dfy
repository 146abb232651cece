/** The conventional-commit markers shared by the version-bump and changelog scripts
    (scripts/version-bump.js and scripts/update-changelog.js test the same prefixes and
    substrings). */
module ConventionalCommits {
  import opened Text

  /** A breaking change: the text mentions `BREAKING CHANGE` anywhere, or uses the `!:`
      marker (`feat!: ...`, `fix(api)!: ...`). */
  predicate IsBreaking(s: string) {
    Contains(s, "BREAKING CHANGE") || Contains(s, "!:")
  }

  /** A feature: `feat:` or `feat(` at the very start. */
  predicate IsFeature(s: string) {
    StartsWith(s, "feat:") || StartsWith(s, "feat(")
  }

  /** A fix: `fix:` or `fix(` at the very start. */
  predicate IsFix(s: string) {
    StartsWith(s, "fix:") || StartsWith(s, "fix(")
  }

  /** The changelog bucket a commit message belongs to. */
  datatype Category = Breaking | Feature | Fix | Other

  /** Breaking is checked first, then feature, then fix; everything else is Other. */
  function Classify(message: string): Category {
    if IsBreaking(message) then Breaking
    else if IsFeature(message) then Feature
    else if IsFix(message) then Fix
    else Other
  }
}
