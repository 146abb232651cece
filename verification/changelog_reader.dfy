/** Reading a changelog entry back into its version, date and buckets. Nothing in
    scripts/update-changelog.js parses an entry; this inverse exists to state what
    `generateChangelogEntry` preserves: every commit of every bucket, in order, under the
    right heading, and nothing else. */
module ChangelogReader {
  import opened Optional
  import opened Text
  import opened Changelog

  datatype Entry = Entry(version: string, date: string, categories: Categories)

  /** Text that fits on one line of the entry. */
  predicate IsLine(s: string) {
    '\n' !in s
  }

  /** A commit that renders to a bullet line that can be read back: the hash (a `%h`
      abbreviation in practice) holds no `(`, and neither field a newline (the log lines
      were split on newlines). */
  predicate ReadableCommit(c: Commit) {
    IsLine(c.message) && IsLine(c.hash) && '(' !in c.hash
  }

  predicate ReadableBucket(cs: seq<Commit>) {
    forall i :: 0 <= i < |cs| ==> ReadableCommit(cs[i])
  }

  /** The inputs whose entry can be read back: version and date on one line, the version
      (a package.json version in practice) without `]`, every commit readable. */
  predicate Readable(version: string, date: string, cats: Categories) {
    && IsLine(version) && IsLine(date) && ']' !in version
    && ReadableBucket(cats.breaking) && ReadableBucket(cats.features)
    && ReadableBucket(cats.fixes) && ReadableBucket(cats.others)
  }

  /** `## [version] - date`: the version runs to the first `]`. */
  function ParseHeader(line: string): Option<(string, string)> {
    if !StartsWith(line, "## [") || ']' !in line[4..] then None
    else
      var body := line[4..];
      var i := FirstIndex(body, ']');
      if StartsWith(body[i..], "] - ") then Some((body[..i], body[i + 4..])) else None
  }

  /** `- message (hash)`: the hash runs from the last `(` to the closing `)`. */
  function ParseBullet(line: string): Option<Commit> {
    if !StartsWith(line, "- ") || |line| < 3 || line[|line| - 1] != ')' then None
    else
      var inner := line[..|line| - 1];
      match LastIndex(inner, '(')
      case None => None
      case Some(j) =>
        if j < 3 || inner[j - 1] != ' ' then None
        else Some(Commit(inner[j + 1..], inner[2..j - 1]))
  }

  /** Bullet lines up to and including the blank line that closes a section; the lines after
      that blank line are returned with the bullets. */
  function ParseBullets(lines: seq<string>): Option<(seq<Commit>, seq<string>)>
    decreases |lines|
  {
    if |lines| == 0 then None
    else if lines[0] == "" then Some(([], lines[1..]))
    else
      var c :- ParseBullet(lines[0]);
      var more :- ParseBullets(lines[1..]);
      Some(([c] + more.0, more.1))
  }

  /** A section with the given title if the next line is that title (and then it must hold
      at least one bullet), otherwise an empty bucket and the lines untouched. */
  function ParseSection(title: string, lines: seq<string>): Option<(seq<Commit>, seq<string>)> {
    if |lines| == 0 || lines[0] != title then Some(([], lines))
    else if |lines| < 2 || lines[1] != "" then None
    else
      var bullets :- ParseBullets(lines[2..]);
      if |bullets.0| == 0 then None else Some(bullets)
  }

  /** The lines of an entry: header, blank line, then the four optional sections in their
      fixed order and nothing after them. */
  function ParseEntryLines(lines: seq<string>): Option<Entry> {
    if |lines| < 2 || lines[1] != "" then None
    else
      var header :- ParseHeader(lines[0]);
      var b :- ParseSection(BreakingTitle, lines[2..]);
      var f :- ParseSection(FeaturesTitle, b.1);
      var x :- ParseSection(FixesTitle, f.1);
      var o :- ParseSection(OthersTitle, x.1);
      if o.1 != [] then None
      else Some(Entry(header.0, header.1, Categories(b.0, f.0, x.0, o.0)))
  }

  /** An entry is newline-terminated lines. */
  function ParseEntry(text: string): Option<Entry> {
    var lines := Split(text, '\n');
    if lines[|lines| - 1] != "" then None else ParseEntryLines(lines[..|lines| - 1])
  }

  lemma HeaderRoundTrip(version: string, date: string)
    requires ']' !in version
    ensures ParseHeader(HeaderLine(version, date)) == Some((version, date))
  {
    var line := HeaderLine(version, date);
    var body := version + [']'] + " - " + date;
    assert StartsWith(line, "## [") && line[4..] == body by {
      assert line == "## [" + body;
    }
    assert ']' in body && FirstIndex(body, ']') == |version| by {
      assert body[|version|] == ']';
      FirstIndexAfter(version, ']', " - " + date);
    }
    assert body[|version|..] == "] - " + date;
    assert body[..|version|] == version;
    assert body[|version| + 4..] == date;
  }

  lemma BulletRoundTrip(c: Commit)
    requires ReadableCommit(c)
    ensures ParseBullet(BulletLine(c)) == Some(c)
  {
    var line := BulletLine(c);
    var front := "- " + c.message + " ";
    var inner := front + ['('] + c.hash;
    assert StartsWith(line, "- ") && |line| >= 3 && line[|line| - 1] == ')'
      && line[..|line| - 1] == inner by {
      assert line == inner + [')'];
    }
    assert LastIndex(inner, '(') == Some(|front|) by {
      LastIndexBefore(front, '(', c.hash);
    }
    assert inner[|front| - 1] == ' ';
    assert inner[|front| + 1..] == c.hash;
    assert inner[2..|front| - 1] == c.message;
  }

  lemma {:induction false} BulletsRoundTrip(cs: seq<Commit>, rest: seq<string>)
    requires ReadableBucket(cs)
    ensures ParseBullets(BulletLines(cs) + [""] + rest) == Some((cs, rest))
    decreases |cs|
  {
    var lines := BulletLines(cs) + [""] + rest;
    if |cs| == 0 {
      assert lines == [""] + rest;
    } else {
      BulletRoundTrip(cs[0]);
      assert BulletLine(cs[0])[0] == '-';
      assert lines[0] == BulletLine(cs[0]);
      assert lines[1..] == BulletLines(cs[1..]) + [""] + rest;
      BulletsRoundTrip(cs[1..], rest);
      assert cs == [cs[0]] + cs[1..];
    }
  }

  /** A rendered section reads back as its bucket, provided what follows does not start with
      the same title (an empty section renders to nothing). */
  lemma SectionRoundTrip(title: string, cs: seq<Commit>, rest: seq<string>)
    requires ReadableBucket(cs)
    requires |title| > 0
    requires |rest| == 0 || rest[0] != title
    ensures ParseSection(title, SectionLines(title, cs) + rest) == Some((cs, rest))
  {
    var lines := SectionLines(title, cs) + rest;
    if |cs| > 0 {
      assert lines == [title, ""] + (BulletLines(cs) + [""] + rest);
      BulletsRoundTrip(cs, rest);
      ParseSectionAt(title, lines);
    } else {
      assert lines == rest;
    }
  }

  /** Under its title and a blank line, a section is the bullets that follow. */
  lemma ParseSectionAt(title: string, lines: seq<string>)
    requires |lines| >= 2 && lines[0] == title && lines[1] == ""
    requires ParseBullets(lines[2..]).Some? && |ParseBullets(lines[2..]).value.0| > 0
    ensures ParseSection(title, lines) == ParseBullets(lines[2..])
  {
  }

  /** The line a run of sections starts with, when it starts with one. */
  lemma SectionsStart(title: string, cs: seq<Commit>, rest: seq<string>)
    ensures |cs| > 0 ==> (SectionLines(title, cs) + rest)[0] == title
    ensures |cs| == 0 ==> SectionLines(title, cs) + rest == rest
  {
  }

  lemma EntryLinesAreLines(version: string, date: string, cats: Categories)
    requires Readable(version, date, cats)
    ensures forall i :: 0 <= i < |EntryLines(version, date, cats)| ==> IsLine(EntryLines(version, date, cats)[i])
  {
    TitlesAreLines();
    BulletsAreLines(cats.breaking);
    BulletsAreLines(cats.features);
    BulletsAreLines(cats.fixes);
    BulletsAreLines(cats.others);
    var h := HeaderLine(version, date);
    assert h == "## [" + version + "] - " + date;
    assert IsLine(h);
  }

  lemma TitlesAreLines()
    ensures IsLine(BreakingTitle) && IsLine(FeaturesTitle) && IsLine(FixesTitle) && IsLine(OthersTitle)
  {
  }

  lemma BulletsAreLines(cs: seq<Commit>)
    requires ReadableBucket(cs)
    ensures forall i :: 0 <= i < |BulletLines(cs)| ==> IsLine(BulletLines(cs)[i])
  {
    forall i | 0 <= i < |cs| ensures IsLine(BulletLines(cs)[i]) {
      var c := cs[i];
      assert BulletLines(cs)[i] == "- " + c.message + " (" + c.hash + ")";
    }
  }

  /** Reading back a generated entry recovers the version, the date and all four buckets
      exactly: every commit appears once as a bullet under its own heading, in order, the
      headings come in the fixed order breaking, features, fixes, others, and a heading is
      rendered only for a non-empty bucket (the reader rejects an empty section). */
  lemma EntryRoundTrip(version: string, date: string, cats: Categories)
    requires Readable(version, date, cats)
    ensures ParseEntry(GenerateChangelogEntry(version, date, cats)) == Some(Entry(version, date, cats))
  {
    var text := GenerateChangelogEntry(version, date, cats);
    var lines := EntryLines(version, date, cats);
    assert Split(text, '\n') == lines + [""] by {
      EntryAsLines(version, date, cats);
      EntryLinesAreLines(version, date, cats);
      SplitUnlines(lines);
    }
    assert ParseEntry(text) == ParseEntryLines(lines) by {
      assert (lines + [""])[..|lines|] == lines;
    }
    EntryLinesRoundTrip(version, date, cats);
  }

  lemma EntryLinesRoundTrip(version: string, date: string, cats: Categories)
    requires Readable(version, date, cats)
    ensures ParseEntryLines(EntryLines(version, date, cats)) == Some(Entry(version, date, cats))
  {
    var sb := SectionLines(BreakingTitle, cats.breaking);
    var sf := SectionLines(FeaturesTitle, cats.features);
    var sx := SectionLines(FixesTitle, cats.fixes);
    var so := SectionLines(OthersTitle, cats.others);
    var lines := EntryLines(version, date, cats);
    EntryLinesShape(version, date, cats);
    HeaderRoundTrip(version, date);
    BreakingSectionRoundTrip(cats);
    FeaturesSectionRoundTrip(cats);
    FixesSectionRoundTrip(cats);
    OthersSectionRoundTrip(cats);
    ReadEntryLines(lines, version, date, cats, sf + (sx + so), sx + so, so);
  }

  /** The header line, a blank line, then the four sections. */
  lemma EntryLinesShape(version: string, date: string, cats: Categories)
    ensures var lines := EntryLines(version, date, cats);
      && |lines| >= 2 && lines[0] == HeaderLine(version, date) && lines[1] == ""
      && lines[2..] == SectionLines(BreakingTitle, cats.breaking)
        + (SectionLines(FeaturesTitle, cats.features)
        + (SectionLines(FixesTitle, cats.fixes) + SectionLines(OthersTitle, cats.others)))
  {
    var lines := EntryLines(version, date, cats);
    var sb := SectionLines(BreakingTitle, cats.breaking);
    var sf := SectionLines(FeaturesTitle, cats.features);
    var sx := SectionLines(FixesTitle, cats.fixes);
    var so := SectionLines(OthersTitle, cats.others);
    assert lines == [HeaderLine(version, date), ""] + (sb + (sf + (sx + so)));
  }

  /** The reader's steps in sequence: the header, then each section on what the previous
      one left, and nothing left at the end. */
  lemma ReadEntryLines(lines: seq<string>, version: string, date: string, cats: Categories,
                       afterBreaking: seq<string>, afterFeatures: seq<string>, afterFixes: seq<string>)
    requires |lines| >= 2 && lines[1] == ""
    requires ParseHeader(lines[0]) == Some((version, date))
    requires ParseSection(BreakingTitle, lines[2..]) == Some((cats.breaking, afterBreaking))
    requires ParseSection(FeaturesTitle, afterBreaking) == Some((cats.features, afterFeatures))
    requires ParseSection(FixesTitle, afterFeatures) == Some((cats.fixes, afterFixes))
    requires ParseSection(OthersTitle, afterFixes) == Some((cats.others, []))
    ensures ParseEntryLines(lines) == Some(Entry(version, date, cats))
  {
  }

  lemma BreakingSectionRoundTrip(cats: Categories)
    requires ReadableBucket(cats.breaking)
    ensures var sf := SectionLines(FeaturesTitle, cats.features);
      var sx := SectionLines(FixesTitle, cats.fixes);
      var so := SectionLines(OthersTitle, cats.others);
      ParseSection(BreakingTitle, SectionLines(BreakingTitle, cats.breaking) + (sf + (sx + so)))
        == Some((cats.breaking, sf + (sx + so)))
  {
    var sx := SectionLines(FixesTitle, cats.fixes);
    var so := SectionLines(OthersTitle, cats.others);
    TitlesDistinct();
    SectionsStart(FeaturesTitle, cats.features, sx + so);
    SectionsStart(FixesTitle, cats.fixes, so);
    SectionsStart(OthersTitle, cats.others, []);
    assert so + [] == so;
    SectionRoundTrip(BreakingTitle, cats.breaking, SectionLines(FeaturesTitle, cats.features) + (sx + so));
  }

  lemma FeaturesSectionRoundTrip(cats: Categories)
    requires ReadableBucket(cats.features)
    ensures var sx := SectionLines(FixesTitle, cats.fixes);
      var so := SectionLines(OthersTitle, cats.others);
      ParseSection(FeaturesTitle, SectionLines(FeaturesTitle, cats.features) + (sx + so))
        == Some((cats.features, sx + so))
  {
    var so := SectionLines(OthersTitle, cats.others);
    TitlesDistinct();
    SectionsStart(FixesTitle, cats.fixes, so);
    SectionsStart(OthersTitle, cats.others, []);
    assert so + [] == so;
    SectionRoundTrip(FeaturesTitle, cats.features, SectionLines(FixesTitle, cats.fixes) + so);
  }

  lemma FixesSectionRoundTrip(cats: Categories)
    requires ReadableBucket(cats.fixes)
    ensures var so := SectionLines(OthersTitle, cats.others);
      ParseSection(FixesTitle, SectionLines(FixesTitle, cats.fixes) + so) == Some((cats.fixes, so))
  {
    var so := SectionLines(OthersTitle, cats.others);
    TitlesDistinct();
    SectionsStart(OthersTitle, cats.others, []);
    assert so + [] == so;
    SectionRoundTrip(FixesTitle, cats.fixes, so);
  }

  lemma OthersSectionRoundTrip(cats: Categories)
    requires ReadableBucket(cats.others)
    ensures ParseSection(OthersTitle, SectionLines(OthersTitle, cats.others)) == Some((cats.others, []))
  {
    SectionRoundTrip(OthersTitle, cats.others, []);
    assert SectionLines(OthersTitle, cats.others) + [] == SectionLines(OthersTitle, cats.others);
  }

  /** Why `BulletRoundTrip` needs a hash without `(`: two different commits, one of them not
      readable, render to the same bullet. */
  lemma BulletsCanCollide()
    ensures Commit("b) (c", "a") != Commit("c", "a (b)")
    ensures BulletLine(Commit("b) (c", "a")) == BulletLine(Commit("c", "a (b)"))
  {
    assert "- " + "a" + " (" + "b) (c" + ")" == "- " + "a (b)" + " (" + "c" + ")";
  }

  /** Why `HeaderRoundTrip` needs a version without `]`: two different pairs render to the
      same header. */
  lemma HeadersCanCollide()
    ensures HeaderLine("a] - b", "c") == HeaderLine("a", "b] - c")
  {
    assert "## [" + "a] - b" + "] - " + "c" == "## [" + "a" + "] - " + "b] - c";
  }
}
