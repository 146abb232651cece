/** The insertion step of `updateChangelog` in scripts/update-changelog.js: where a new entry
    goes in the text of CHANGELOG.md. Reading and writing the file are left out; the
    current text (None when the file does not exist) and the entry are parameters. */
module ChangelogSplice {
  import opened Optional
  import opened Text

  /** The header the entry goes under; its 15 characters are the `+ 15` of the script. */
  const UnreleasedHeader := "## [Unreleased]"

  /** The text a missing CHANGELOG.md starts from, between its leading `#` and the header:
      the rest of the title line and the two paragraphs. The literals are cut short so that
      the absence of `#` in each can be checked character by character. */
  const Preamble := TitleRest + PurposeNote + FormatNote + VersioningNote
  const TitleRest := " Changelog\n\n"
  const PurposeNote := "All notable changes to " + "this project will be " + "documented in this file.\n\n"
  const FormatNote :=
    "The format is based on " + "[Keep a Changelog]" + "(https://keepachangelog.com" + "/en/1.0.0/),\n"
  const VersioningNote :=
    "and this project adheres " + "to [Semantic Versioning]" + "(https://semver.org" + "/spec/v2.0.0.html).\n\n"

  const DefaultChangelog := "#" + Preamble + UnreleasedHeader + "\n\n"

  /** JavaScript `s.indexOf(needle, from)`, with -1 for "not found". */
  function JsIndexOf(s: string, needle: string, from: nat): (r: int)
    ensures r == -1 || (from <= r && OccursAt(s, needle, r))
  {
    match IndexOf(s, needle, from)
    case None => -1
    case Some(i) => i
  }

  /** `content` with a blank line and `entry` inserted at position `p`. */
  function SpliceAt(content: string, entry: string, p: nat): string
    requires p <= |content|
  {
    content[..p] + "\n" + entry + content[p..]
  }

  /** `u` is where the header first occurs. */
  predicate FirstHeaderAt(content: string, u: nat) {
    OccursAt(content, UnreleasedHeader, u)
    && forall i :: 0 <= i < u ==> !OccursAt(content, UnreleasedHeader, i)
  }

  /** The header line that starts at `u` ends with the newline at `n`. */
  predicate HeaderLineEndsAt(content: string, u: nat, n: nat) {
    u + |UnreleasedHeader| <= n < |content| && content[n] == '\n'
    && '\n' !in content[u + |UnreleasedHeader|..n]
  }

  /** The header at `u` is on the last line, which has no newline. */
  predicate HeaderOnUnterminatedLine(content: string, u: nat) {
    u + |UnreleasedHeader| <= |content| && '\n' !in content[u + |UnreleasedHeader|..]
  }

  lemma NoNewlineFrom(content: string, from: nat)
    requires from <= |content|
    requires forall j :: from <= j ==> !OccursAt(content, "\n", j)
    ensures '\n' !in content[from..]
  {
    if '\n' in content[from..] {
      var k :| 0 <= k < |content[from..]| && content[from..][k] == '\n';
      assert content[from + k..from + k + 1] == "\n";
      assert OccursAt(content, "\n", from + k);
    }
  }

  lemma FirstNewlineFrom(content: string, from: nat, n: nat)
    requires from <= n && OccursAt(content, "\n", n)
    requires forall j :: from <= j < n ==> !OccursAt(content, "\n", j)
    ensures content[n] == '\n' && '\n' !in content[from..n]
  {
    assert content[n..n + 1] == "\n";
    if '\n' in content[from..n] {
      var k :| 0 <= k < n - from && content[from..n][k] == '\n';
      assert content[from + k..from + k + 1] == "\n";
      assert OccursAt(content, "\n", from + k);
    }
  }

  /** The splice of `updateChangelog` as the script writes it: after the newline ending the
      header line, at the end when there is no header, and, when the header line is the last
      line and has no newline, at position `-1 + 1 == 0`. */
  function InsertEntryAsWritten(content: string, entry: string): (r: string)
    ensures (forall i: nat :: !OccursAt(content, UnreleasedHeader, i)) ==> r == content + "\n" + entry
    ensures forall u: nat, n: nat :: (FirstHeaderAt(content, u) && HeaderLineEndsAt(content, u, n)
      ==> r == SpliceAt(content, entry, n + 1))
    ensures forall u: nat :: (FirstHeaderAt(content, u) && HeaderOnUnterminatedLine(content, u)
      ==> r == "\n" + entry + content)
  {
    match IndexOf(content, UnreleasedHeader, 0)
    case None => content + "\n" + entry
    case Some(u) =>
      var from := u + |UnreleasedHeader|;
      var insertPosition := JsIndexOf(content, "\n", from) + 1;
      InsertPositionFacts(content, u);
      SpliceAt(content, entry, insertPosition)
  }

  /** The header found first is the only first header, and the newline search after it
      finds the end of its line, or nothing exactly when the line is the unterminated last
      line. */
  lemma InsertPositionFacts(content: string, u: nat)
    requires FirstHeaderAt(content, u)
    ensures forall u': nat :: FirstHeaderAt(content, u') ==> u' == u
    ensures var n := JsIndexOf(content, "\n", u + |UnreleasedHeader|);
      && (n == -1 <==> HeaderOnUnterminatedLine(content, u))
      && (forall n': nat :: HeaderLineEndsAt(content, u, n') <==> n' == n)
  {
    var from := u + |UnreleasedHeader|;
    match IndexOf(content, "\n", from)
    case None =>
      NoNewlineFrom(content, from);
    case Some(n) =>
      FirstNewlineFrom(content, from, n);
  }

  /** In the example text the header starts at position 13 and ends the text. */
  lemma ExampleHeaderAt13()
    ensures FirstHeaderAt("# Changelog\n\n## [Unreleased]", 13)
    ensures HeaderOnUnterminatedLine("# Changelog\n\n## [Unreleased]", 13)
  {
    var content := "# Changelog\n\n## [Unreleased]";
    assert content[13..28] == UnreleasedHeader;
    forall i | 0 <= i < 13 ensures !OccursAt(content, UnreleasedHeader, i) {
      assert content[i] != '#' || content[i + 1] != '#';
      assert content[i..i + 15][0] == content[i] && content[i..i + 15][1] == content[i + 1];
    }
  }

  /** Where the header is the unterminated last line, the script puts the entry at the very
      start of the file, before the header (and before the title above it). */
  lemma HeaderAtEndPrependsEntry(entry: string)
    ensures InsertEntryAsWritten("# Changelog\n\n## [Unreleased]", entry)
      == "\n" + entry + "# Changelog\n\n## [Unreleased]"
  {
    var content := "# Changelog\n\n## [Unreleased]";
    ExampleHeaderAt13();
    assert HeaderOnUnterminatedLine(content, 13);
  }

  /** Where the corrected splice goes under the header at `u`: just past the newline that
      ends the header line, or the end of the text when that line is unterminated. */
  function AfterHeaderLine(content: string, u: nat): (p: nat)
    requires u + |UnreleasedHeader| <= |content|
    ensures u + |UnreleasedHeader| <= p <= |content|
  {
    var n := JsIndexOf(content, "\n", u + |UnreleasedHeader|);
    if n == -1 then |content| else n + 1
  }

  /** The splice as evidently intended: after the header line, which at the end of the file
      means after the header itself. */
  function InsertEntry(content: string, entry: string): string {
    match IndexOf(content, UnreleasedHeader, 0)
    case None => content + "\n" + entry
    case Some(u) => SpliceAt(content, entry, AfterHeaderLine(content, u))
  }

  /** The splice as evidently intended, placed: with no header the entry goes at the end;
      under a header it goes after the newline that ends the header line or, when that line
      is the unterminated last line, after the header itself. */
  lemma InsertEntryPlacement(content: string, entry: string)
    ensures (forall i: nat :: !OccursAt(content, UnreleasedHeader, i)) ==> InsertEntry(content, entry) == content + "\n" + entry
    ensures forall u: nat, n: nat :: (FirstHeaderAt(content, u) && HeaderLineEndsAt(content, u, n)
      ==> InsertEntry(content, entry) == SpliceAt(content, entry, n + 1))
    ensures forall u: nat :: (FirstHeaderAt(content, u) && HeaderOnUnterminatedLine(content, u)
      ==> InsertEntry(content, entry) == content + "\n" + entry)
  {
    if forall i: nat :: !OccursAt(content, UnreleasedHeader, i) {
      PlacedWithoutHeader(content, entry);
    }
    forall u: nat, n: nat | FirstHeaderAt(content, u) && HeaderLineEndsAt(content, u, n)
      ensures InsertEntry(content, entry) == SpliceAt(content, entry, n + 1)
    {
      PlacedAfterHeaderLine(content, entry, u, n);
    }
    forall u: nat | FirstHeaderAt(content, u) && HeaderOnUnterminatedLine(content, u)
      ensures InsertEntry(content, entry) == content + "\n" + entry
    {
      PlacedAfterFinalHeader(content, entry, u);
    }
  }

  lemma PlacedWithoutHeader(content: string, entry: string)
    requires forall i: nat :: !OccursAt(content, UnreleasedHeader, i)
    ensures InsertEntry(content, entry) == content + "\n" + entry
  {
  }

  lemma PlacedAfterHeaderLine(content: string, entry: string, u: nat, n: nat)
    requires FirstHeaderAt(content, u) && HeaderLineEndsAt(content, u, n)
    ensures InsertEntry(content, entry) == SpliceAt(content, entry, n + 1)
  {
    FoundHeader(content, u);
    SplicesUnderHeader(content, entry, u);
    AfterHeaderLineAt(content, u);
  }

  lemma PlacedAfterFinalHeader(content: string, entry: string, u: nat)
    requires FirstHeaderAt(content, u) && HeaderOnUnterminatedLine(content, u)
    ensures InsertEntry(content, entry) == content + "\n" + entry
  {
    FoundHeader(content, u);
    SplicesUnderHeader(content, entry, u);
    AfterHeaderLineAt(content, u);
    assert content[..|content|] == content && content[|content|..] == "";
  }

  /** The search for the header finds the first header. */
  lemma FoundHeader(content: string, u: nat)
    requires FirstHeaderAt(content, u)
    ensures IndexOf(content, UnreleasedHeader, 0) == Some(u)
  {
    match IndexOf(content, UnreleasedHeader, 0)
    case None =>
    case Some(v) =>
      FirstHeaderUnique(content, u, v);
  }

  /** The corrected insertion point is just past the end of the header line, or the end of
      the text when the header line is the unterminated last line. */
  lemma AfterHeaderLineAt(content: string, u: nat)
    requires FirstHeaderAt(content, u)
    ensures forall n: nat :: HeaderLineEndsAt(content, u, n) ==> AfterHeaderLine(content, u) == n + 1
    ensures HeaderOnUnterminatedLine(content, u) ==> AfterHeaderLine(content, u) == |content|
  {
    InsertPositionFacts(content, u);
  }

  /** Whatever the text, the entry goes in whole and nothing else changes: taking the inserted
      blank line and entry out again gives the old text back, and the text up to the end of
      the first header is kept in front of the entry. */
  lemma InsertEntryKeepsContent(content: string, entry: string)
    ensures exists p: nat :: p <= |content| && InsertEntry(content, entry) == SpliceAt(content, entry, p)
    ensures forall u: nat :: FirstHeaderAt(content, u) ==>
      StartsWith(InsertEntry(content, entry), content[..u + |UnreleasedHeader|])
  {
    match IndexOf(content, UnreleasedHeader, 0)
    case None =>
      assert content[..|content|] == content && content[|content|..] == "";
      assert InsertEntry(content, entry) == SpliceAt(content, entry, |content|);
    case Some(u) =>
      var from := u + |UnreleasedHeader|;
      var p := AfterHeaderLine(content, u);
      assert SpliceAt(content, entry, p)[..from] == content[..from];
      forall u': nat | FirstHeaderAt(content, u') ensures u' == u {
        FirstHeaderUnique(content, u, u');
      }
  }

  /** The script's splice, too, only inserts: taking the blank line and the entry out
      again gives the old text back. In the unterminated-header case the cut is at 0. */
  lemma InsertEntryAsWrittenKeepsContent(content: string, entry: string)
    ensures exists p: nat :: p <= |content| && InsertEntryAsWritten(content, entry) == SpliceAt(content, entry, p)
    ensures forall u: nat :: (FirstHeaderAt(content, u) && HeaderOnUnterminatedLine(content, u)
      ==> InsertEntryAsWritten(content, entry) == SpliceAt(content, entry, 0))
  {
    forall u: nat | FirstHeaderAt(content, u) && HeaderOnUnterminatedLine(content, u)
      ensures InsertEntryAsWritten(content, entry) == SpliceAt(content, entry, 0)
    {
      CutAtZero(content, entry, u);
    }
    match IndexOf(content, UnreleasedHeader, 0)
    case None =>
      assert content[..|content|] == content && content[|content|..] == "";
      assert InsertEntryAsWritten(content, entry) == SpliceAt(content, entry, |content|);
    case Some(u) =>
      SplicesUnderHeader(content, entry, u);
      var p := JsIndexOf(content, "\n", u + |UnreleasedHeader|) + 1;
      assert InsertEntryAsWritten(content, entry) == SpliceAt(content, entry, p);
  }

  lemma CutAtZero(content: string, entry: string, u: nat)
    requires FirstHeaderAt(content, u) && HeaderOnUnterminatedLine(content, u)
    ensures InsertEntryAsWritten(content, entry) == SpliceAt(content, entry, 0)
  {
    assert InsertEntryAsWritten(content, entry) == "\n" + entry + content;
    assert content[..0] == "" && content[0..] == content;
  }

  /** There is at most one first header. */
  lemma FirstHeaderUnique(content: string, u: nat, u': nat)
    requires FirstHeaderAt(content, u) && FirstHeaderAt(content, u')
    ensures u == u'
  {
  }

  /** The correction changes nothing except in the unterminated-header case. */
  lemma InsertEntryAgreesAsWritten(content: string, entry: string)
    requires forall u: nat :: FirstHeaderAt(content, u) ==> !HeaderOnUnterminatedLine(content, u)
    ensures InsertEntry(content, entry) == InsertEntryAsWritten(content, entry)
  {
    match IndexOf(content, UnreleasedHeader, 0)
    case None =>
    case Some(u) =>
      assert FirstHeaderAt(content, u);
      AgreeUnderHeader(content, entry, u);
  }

  lemma AgreeUnderHeader(content: string, entry: string, u: nat)
    requires IndexOf(content, UnreleasedHeader, 0) == Some(u)
    requires !HeaderOnUnterminatedLine(content, u)
    ensures InsertEntry(content, entry) == InsertEntryAsWritten(content, entry)
  {
    InsertPositionFacts(content, u);
    SplicesUnderHeader(content, entry, u);
  }

  /** Under the header at `u`, both splices cut the text at their insertion points. */
  lemma SplicesUnderHeader(content: string, entry: string, u: nat)
    requires IndexOf(content, UnreleasedHeader, 0) == Some(u)
    ensures var n := JsIndexOf(content, "\n", u + |UnreleasedHeader|);
      && InsertEntryAsWritten(content, entry) == SpliceAt(content, entry, n + 1)
      && InsertEntry(content, entry) == SpliceAt(content, entry, AfterHeaderLine(content, u))
  {
  }

  /** The edge case under the correction: the entry follows the header. */
  lemma HeaderAtEndAppendsEntry(entry: string)
    ensures InsertEntry("# Changelog\n\n## [Unreleased]", entry)
      == "# Changelog\n\n## [Unreleased]\n" + entry
  {
    var content := "# Changelog\n\n## [Unreleased]";
    ExampleHeaderAt13();
    InsertEntryPlacement(content, entry);
  }

  /** The whole of `updateChangelog` as the script writes it: the existing text, or the
      default one when the file is missing, with the entry spliced in by the script's splice.
      A missing file gets the entry at its end, under the header, followed by the final
      newline of the default text. */
  function UpdateChangelog(existing: Option<string>, entry: string): (r: string)
    ensures existing.Some? ==> r == InsertEntryAsWritten(existing.value, entry)
    ensures existing.None? ==> r == DefaultChangelog + entry + "\n"
  {
    DefaultTakesEntryAtEnd(entry);
    InsertEntryAsWritten(existing.OrElse(DefaultChangelog), entry)
  }

  /** `updateChangelog` with the corrected splice. By `InsertEntryAgreesAsWritten` it differs
      from the script only for an existing file whose header line is its unterminated last
      line. */
  function UpdateChangelogCorrected(existing: Option<string>, entry: string): (r: string)
    ensures existing.Some? ==> r == InsertEntry(existing.value, entry)
    ensures existing.None? ==> r == DefaultChangelog + entry + "\n"
  {
    DefaultTakesEntryAtEnd(entry);
    InsertEntry(existing.OrElse(DefaultChangelog), entry)
  }

  /** The default text's only header is its last line but one, so both splices put the entry
      at the very end, after the blank line that follows the header. */
  lemma DefaultTakesEntryAtEnd(entry: string)
    ensures InsertEntryAsWritten(DefaultChangelog, entry) == DefaultChangelog + entry + "\n"
    ensures InsertEntry(DefaultChangelog, entry) == DefaultChangelog + entry + "\n"
  {
    assert Preamble[0] == TitleRest[0] == ' ';
    PreambleHasNoHash();
    FirstHeaderAfterPreamble(Preamble, "\n\n");
    InsertUnderFinalHeader("#" + Preamble, entry);
  }

  /** No `#` before the header in the default text. Each step below checks at most two of
      the short literals, which keeps the character-by-character checks small. */
  lemma PreambleHasNoHash()
    ensures '#' !in Preamble
  {
    TitleHasNoHash();
    PurposeStartHasNoHash();
    PurposeEndHasNoHash();
    FormatStartHasNoHash();
    FormatEndHasNoHash();
    VersioningStartHasNoHash();
    VersioningEndHasNoHash();
  }

  lemma TitleHasNoHash() ensures '#' !in " Changelog\n\n" {}
  lemma PurposeStartHasNoHash() ensures '#' !in "All notable changes to " + "this project will be " {}
  lemma PurposeEndHasNoHash() ensures '#' !in "documented in this file.\n\n" {}
  lemma FormatStartHasNoHash() ensures '#' !in "The format is based on " + "[Keep a Changelog]" {}
  lemma FormatEndHasNoHash() ensures '#' !in "(https://keepachangelog.com" + "/en/1.0.0/),\n" {}
  lemma VersioningStartHasNoHash() ensures '#' !in "and this project adheres " + "to [Semantic Versioning]" {}
  lemma VersioningEndHasNoHash() ensures '#' !in "(https://semver.org" + "/spec/v2.0.0.html).\n\n" {}

  /** After a leading `#` and text with no `#` that starts with a space, the first header is
      the one that follows that text. */
  lemma FirstHeaderAfterPreamble(rest: string, tail: string)
    requires |rest| >= 1 && rest[0] == ' ' && '#' !in rest
    ensures FirstHeaderAt("#" + rest + UnreleasedHeader + tail, 1 + |rest|)
  {
    var content := "#" + rest + UnreleasedHeader + tail;
    var u := 1 + |rest|;
    assert content[u..u + 15] == UnreleasedHeader;
    forall i | 0 <= i < u ensures !OccursAt(content, UnreleasedHeader, i) {
      if i == 0 {
        assert content[i..i + 15][1] == content[1] == rest[0] != UnreleasedHeader[1];
      } else {
        assert rest[i - 1] in rest;
        assert content[i..i + 15][0] == content[i] == rest[i - 1] != UnreleasedHeader[0];
      }
    }
  }

  /** The shape of the default text: when the only header is the last line followed by a
      blank line, both splices put the entry after that blank line, and the text's final
      newline ends up after the entry. */
  lemma InsertUnderFinalHeader(prefix: string, entry: string)
    requires FirstHeaderAt(prefix + UnreleasedHeader + "\n\n", |prefix|)
    ensures InsertEntry(prefix + UnreleasedHeader + "\n\n", entry)
      == prefix + UnreleasedHeader + "\n\n" + entry + "\n"
    ensures InsertEntryAsWritten(prefix + UnreleasedHeader + "\n\n", entry)
      == prefix + UnreleasedHeader + "\n\n" + entry + "\n"
  {
    var t := prefix + UnreleasedHeader + "\n\n";
    var u := |prefix|;
    assert t[u + 15] == '\n' && t[u + 15..u + 15] == "";
    assert HeaderLineEndsAt(t, u, u + 15);
    InsertEntryPlacement(t, entry);
    assert t[..u + 16] + "\n" == t;
    assert t[u + 16..] == "\n";
  }
}
