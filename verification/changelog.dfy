/** scripts/update-changelog.js, the pure part: sorting `hash subject` lines into the four
    changelog buckets (`parseCommits`) and rendering a Markdown entry from the buckets
    (`generateChangelogEntry`). The git log, package.json and the clock are left to the
    caller: commit lines, version and date are parameters. */
module Changelog {
  import opened Text
  import opened ConventionalCommits

  /** One `git log --pretty=format:"%h %s"` line, taken apart. */
  datatype Commit = Commit(hash: string, message: string)

  /** `const [hash, ...messageParts] = commit.split(' '); message = messageParts.join(' ')`:
      the hash is the text before the first space and the message everything after it. */
  function ParseCommitLine(line: string): (c: Commit)
    ensures ' ' !in c.hash
    ensures ' ' in line ==> c.hash + " " + c.message == line
    ensures ' ' !in line ==> c.hash == line && c.message == ""
  {
    var parts := Split(line, ' ');
    CommitLineParts(line);
    Commit(parts[0], Join(parts[1..], ' '))
  }

  lemma CommitLineParts(line: string)
    ensures var parts := Split(line, ' ');
      ' ' in line ==> parts[0] + " " + Join(parts[1..], ' ') == line
    ensures ' ' !in line ==> Split(line, ' ') == [line]
  {
    if ' ' in line {
      var i := FirstIndex(line, ' ');
      var rest := line[i + 1..];
      var parts := Split(line, ' ');
      assert parts[1..] == Split(rest, ' ');
      JoinSplit(rest, ' ');
      assert line == line[..i] + " " + rest;
    }
  }

  /** The four buckets of `parseCommits`, each in input order. */
  datatype Categories = Categories(
    breaking: seq<Commit>,
    features: seq<Commit>,
    fixes: seq<Commit>,
    others: seq<Commit>)

  const NoCommits := Categories([], [], [], [])

  /** The bucket holding commits of category `k`. */
  function BucketOf(cats: Categories, k: Category): seq<Commit> {
    match k
    case Breaking => cats.breaking
    case Feature => cats.features
    case Fix => cats.fixes
    case Other => cats.others
  }

  function Total(cats: Categories): nat {
    |cats.breaking| + |cats.features| + |cats.fixes| + |cats.others|
  }

  /** The category a parsed commit is filed under. */
  function CategoryOf(c: Commit): Category {
    Classify(c.message)
  }

  /** The elements of `s` whose key is `k`, in the order they come in (an order-keeping
      filter). */
  function Select<T>(s: seq<T>, key: T -> Category, k: Category): (r: seq<T>)
    ensures forall i :: 0 <= i < |r| ==> key(r[i]) == k
    decreases |s|
  {
    if |s| == 0 then []
    else (if key(s[0]) == k then [s[0]] else []) + Select(s[1..], key, k)
  }

  /** The commits of category `k`, in the order they come in. */
  function Bucket(commits: seq<Commit>, k: Category): seq<Commit> {
    Select(commits, CategoryOf, k)
  }

  /** Filtering a concatenation filters each part: elements from an earlier stretch of the
      input come before elements from a later one. */
  lemma {:induction false} SelectAppend<T>(a: seq<T>, b: seq<T>, key: T -> Category, k: Category)
    ensures Select(a + b, key, k) == Select(a, key, k) + Select(b, key, k)
    decreases |a|
  {
    if |a| > 0 {
      SelectAppend(a[1..], b, key, k);
      assert (a + b)[1..] == a[1..] + b;
    } else {
      assert a + b == b;
    }
  }

  lemma BucketAppend(a: seq<Commit>, b: seq<Commit>, k: Category)
    ensures Bucket(a + b, k) == Bucket(a, k) + Bucket(b, k)
  {
    SelectAppend(a, b, CategoryOf, k);
  }

  /** The four selections of `s` together. */
  function AllSelected<T>(s: seq<T>, key: T -> Category): multiset<T> {
    multiset(Select(s, key, Breaking)) + multiset(Select(s, key, Feature))
    + multiset(Select(s, key, Fix)) + multiset(Select(s, key, Other))
  }

  /** A selection holds every copy of each element with the selected key and nothing else. */
  lemma {:induction false} SelectCount<T>(s: seq<T>, key: T -> Category, k: Category, y: T)
    ensures multiset(Select(s, key, k))[y] == if key(y) == k then multiset(s)[y] else 0
    decreases |s|
  {
    if |s| > 0 {
      var x, rest := s[0], s[1..];
      SelectCount(rest, key, k, y);
      assert s == [x] + rest;
      assert multiset(s)[y] == multiset([x])[y] + multiset(rest)[y];
      var front: seq<T> := if key(x) == k then [x] else [];
      assert multiset(Select(s, key, k))[y] == multiset(front)[y] + multiset(Select(rest, key, k))[y];
    }
  }

  /** Every element is selected under exactly one category: together the four selections
      are the input. */
  lemma SelectPartitions<T>(s: seq<T>, key: T -> Category)
    ensures AllSelected(s, key) == multiset(s)
  {
    var all, input := AllSelected(s, key), multiset(s);
    forall y ensures all[y] == input[y] {
      SelectCount(s, key, Breaking, y);
      SelectCount(s, key, Feature, y);
      SelectCount(s, key, Fix, y);
      SelectCount(s, key, Other, y);
    }
    SameCountsSameMultiset(all, input);
  }

  lemma SameCountsSameMultiset<T>(a: multiset<T>, b: multiset<T>)
    requires forall y :: a[y] == b[y]
    ensures a == b
  {
  }

  /** The commits of a list of log lines, in order. */
  function ParseAll(lines: seq<string>): (cs: seq<Commit>)
    ensures |cs| == |lines|
  {
    seq(|lines|, i requires 0 <= i < |lines| => ParseCommitLine(lines[i]))
  }

  lemma ParseAllSnoc(lines: seq<string>, i: int)
    requires 0 <= i < |lines|
    ensures ParseAll(lines[..i + 1]) == ParseAll(lines[..i]) + [ParseCommitLine(lines[i])]
  {
    var a, b := ParseAll(lines[..i + 1]), ParseAll(lines[..i]) + [ParseCommitLine(lines[i])];
    assert |a| == |b|;
    forall j | 0 <= j < |a| ensures a[j] == b[j] {
      assert lines[..i + 1][j] == lines[j];
      if j < i {
        assert lines[..i][j] == lines[j];
      }
    }
  }

  /** The reference sorting of log lines into buckets: each bucket is the order-keeping
      filter of the parsed commits by category. */
  function Categorize(lines: seq<string>): Categories {
    var cs := ParseAll(lines);
    Categories(Bucket(cs, Breaking), Bucket(cs, Feature), Bucket(cs, Fix), Bucket(cs, Other))
  }

  /** `parseCommits`: one pass that pushes each commit onto the first bucket whose test it
      passes, breaking checked before feature before fix. */
  method ParseCommits(commits: seq<string>) returns (cats: Categories)
    ensures cats == Categorize(commits)
  {
    cats := NoCommits;
    var i := 0;
    while i < |commits|
      invariant 0 <= i <= |commits|
      invariant cats == Categorize(commits[..i])
    {
      var c := ParseCommitLine(commits[i]);
      CategorizeStep(commits, i);
      if IsBreaking(c.message) {
        cats := cats.(breaking := cats.breaking + [c]);
      } else if IsFeature(c.message) {
        cats := cats.(features := cats.features + [c]);
      } else if IsFix(c.message) {
        cats := cats.(fixes := cats.fixes + [c]);
      } else {
        cats := cats.(others := cats.others + [c]);
      }
      i := i + 1;
    }
    assert commits[..i] == commits;
  }

  /** Categorizing one more line adds its commit to the end of its own bucket. */
  lemma CategorizeStep(lines: seq<string>, i: int)
    requires 0 <= i < |lines|
    ensures var c := ParseCommitLine(lines[i]);
      var before, after := Categorize(lines[..i]), Categorize(lines[..i + 1]);
      && after.breaking == before.breaking + (if Classify(c.message) == Breaking then [c] else [])
      && after.features == before.features + (if Classify(c.message) == Feature then [c] else [])
      && after.fixes == before.fixes + (if Classify(c.message) == Fix then [c] else [])
      && after.others == before.others + (if Classify(c.message) == Other then [c] else [])
  {
    var c := ParseCommitLine(lines[i]);
    var before := ParseAll(lines[..i]);
    ParseAllSnoc(lines, i);
    forall k ensures Bucket(before + [c], k) == Bucket(before, k) + (if CategoryOf(c) == k then [c] else []) {
      BucketAppend(before, [c], k);
      assert [c][1..] == [];
      assert Bucket([c], k) == (if CategoryOf(c) == k then [c] else []) + Bucket([], k);
    }
  }

  /** Nothing is lost or duplicated: the bucket sizes add up to the number of lines and the
      buckets together hold exactly the parsed commits. */
  lemma CategorizePartitions(lines: seq<string>)
    ensures Total(Categorize(lines)) == |lines|
    ensures var cats := Categorize(lines);
      multiset(cats.breaking) + multiset(cats.features) + multiset(cats.fixes)
        + multiset(cats.others) == multiset(ParseAll(lines))
  {
    var cs := ParseAll(lines);
    SelectPartitions(cs, CategoryOf);
    assert |multiset(cs)| == |lines|;
  }

  /** A commit lands in the bucket of its category and in no other; in particular a breaking
      message goes to `breaking` even when it also starts with `feat:` or `fix:`. */
  lemma CommitLandsInOneBucket(lines: seq<string>, i: int, k: Category)
    requires 0 <= i < |lines|
    ensures var c := ParseCommitLine(lines[i]);
      c in BucketOf(Categorize(lines), k) <==> Classify(c.message) == k
    ensures var c := ParseCommitLine(lines[i]);
      IsBreaking(c.message) ==> c in Categorize(lines).breaking
  {
    var cs := ParseAll(lines);
    var c := cs[i];
    assert cs == cs[..i] + [c] + cs[i + 1..];
    BucketAppend(cs[..i] + [c], cs[i + 1..], Classify(c.message));
    BucketAppend(cs[..i], [c], Classify(c.message));
    var b := BucketOf(Categorize(lines), k);
    if c in b {
      var j :| 0 <= j < |b| && b[j] == c;
    }
  }

  /** Splitting the input anywhere, every bucket is the bucket of the first part followed by
      that of the second: within a bucket commits keep their input order. */
  lemma CategorizeKeepsOrder(lines: seq<string>, n: int, k: Category)
    requires 0 <= n <= |lines|
    ensures BucketOf(Categorize(lines), k)
      == BucketOf(Categorize(lines[..n]), k) + BucketOf(Categorize(lines[n..]), k)
  {
    assert ParseAll(lines) == ParseAll(lines[..n]) + ParseAll(lines[n..]);
    BucketAppend(ParseAll(lines[..n]), ParseAll(lines[n..]), k);
  }

  const BreakingTitle := "### \U{26A0} BREAKING CHANGES"
  const FeaturesTitle := "### \U{2728} Features"
  const FixesTitle := "### \U{1F41B} Bug Fixes"
  const OthersTitle := "### \U{1F527} Other Changes"

  /** `## [version] - date`. */
  function HeaderLine(version: string, date: string): string {
    "## [" + version + "] - " + date
  }

  /** `- message (hash)`. */
  function BulletLine(c: Commit): string {
    "- " + c.message + " (" + c.hash + ")"
  }

  function Bullets(cs: seq<Commit>): string
    decreases |cs|
  {
    if |cs| == 0 then "" else BulletLine(cs[0]) + "\n" + Bullets(cs[1..])
  }

  /** A titled section, or nothing at all for an empty bucket. */
  function Section(title: string, cs: seq<Commit>): string {
    if |cs| > 0 then title + "\n\n" + Bullets(cs) + "\n" else ""
  }

  /** `generateChangelogEntry`. */
  function GenerateChangelogEntry(version: string, date: string, cats: Categories): (entry: string)
    ensures StartsWith(entry, HeaderLine(version, date) + "\n\n")
  {
    HeaderLine(version, date) + "\n\n"
    + Section(BreakingTitle, cats.breaking)
    + Section(FeaturesTitle, cats.features)
    + Section(FixesTitle, cats.fixes)
    + Section(OthersTitle, cats.others)
  }

  /** The entry seen as a list of lines. */
  function BulletLines(cs: seq<Commit>): (ls: seq<string>)
    ensures |ls| == |cs|
  {
    seq(|cs|, i requires 0 <= i < |cs| => BulletLine(cs[i]))
  }

  function SectionLines(title: string, cs: seq<Commit>): seq<string> {
    if |cs| > 0 then [title, ""] + BulletLines(cs) + [""] else []
  }

  function EntryLines(version: string, date: string, cats: Categories): seq<string> {
    [HeaderLine(version, date), ""]
    + SectionLines(BreakingTitle, cats.breaking)
    + SectionLines(FeaturesTitle, cats.features)
    + SectionLines(FixesTitle, cats.fixes)
    + SectionLines(OthersTitle, cats.others)
  }

  lemma {:induction false} BulletsAsLines(cs: seq<Commit>)
    ensures Bullets(cs) == Unlines(BulletLines(cs))
    decreases |cs|
  {
    if |cs| > 0 {
      BulletsAsLines(cs[1..]);
      assert BulletLines(cs)[1..] == BulletLines(cs[1..]);
    }
  }

  lemma SectionAsLines(title: string, cs: seq<Commit>)
    ensures Section(title, cs) == Unlines(SectionLines(title, cs))
  {
    if |cs| > 0 {
      var bl := BulletLines(cs);
      BulletsAsLines(cs);
      assert SectionLines(title, cs) == [title, ""] + (bl + [""]);
      UnlinesAppend([title, ""], bl + [""]);
      UnlinesAppend(bl, [""]);
      assert Unlines([title, ""]) == title + "\n\n";
      assert Unlines([""]) == "\n";
    }
  }

  /** The entry is its lines, each terminated by a newline. */
  lemma EntryAsLines(version: string, date: string, cats: Categories)
    ensures GenerateChangelogEntry(version, date, cats) == Unlines(EntryLines(version, date, cats))
  {
    var h := [HeaderLine(version, date), ""];
    var b := SectionLines(BreakingTitle, cats.breaking);
    var f := SectionLines(FeaturesTitle, cats.features);
    var x := SectionLines(FixesTitle, cats.fixes);
    var o := SectionLines(OthersTitle, cats.others);
    SectionAsLines(BreakingTitle, cats.breaking);
    SectionAsLines(FeaturesTitle, cats.features);
    SectionAsLines(FixesTitle, cats.fixes);
    SectionAsLines(OthersTitle, cats.others);
    UnlinesAppend(h + b + f + x, o);
    UnlinesAppend(h + b + f, x);
    UnlinesAppend(h + b, f);
    UnlinesAppend(h, b);
    assert Unlines(h) == HeaderLine(version, date) + "\n\n";
  }

  /** One of the four section titles. */
  predicate IsTitle(t: string) {
    t == BreakingTitle || t == FeaturesTitle || t == FixesTitle || t == OthersTitle
  }

  /** A title is a line of a section exactly when it is that section's title and the section
      is not empty. */
  lemma TitleInSection(t: string, title: string, cs: seq<Commit>)
    requires IsTitle(t) && IsTitle(title)
    ensures t in SectionLines(title, cs) <==> |cs| > 0 && t == title
  {
    if |cs| > 0 && t in BulletLines(cs) {
      var i :| 0 <= i < |cs| && BulletLines(cs)[i] == t;
      assert BulletLine(cs[i])[0] == '-';
    }
  }

  /** A section heading appears in the entry exactly when its bucket is not empty. */
  lemma HeadingIffNonEmpty(version: string, date: string, cats: Categories)
    ensures BreakingTitle in EntryLines(version, date, cats) <==> |cats.breaking| > 0
    ensures FeaturesTitle in EntryLines(version, date, cats) <==> |cats.features| > 0
    ensures FixesTitle in EntryLines(version, date, cats) <==> |cats.fixes| > 0
    ensures OthersTitle in EntryLines(version, date, cats) <==> |cats.others| > 0
  {
    forall t | IsTitle(t)
      ensures t in EntryLines(version, date, cats) <==>
        (|cats.breaking| > 0 && t == BreakingTitle) || (|cats.features| > 0 && t == FeaturesTitle)
        || (|cats.fixes| > 0 && t == FixesTitle) || (|cats.others| > 0 && t == OthersTitle)
    {
      TitleInSection(t, BreakingTitle, cats.breaking);
      TitleInSection(t, FeaturesTitle, cats.features);
      TitleInSection(t, FixesTitle, cats.fixes);
      TitleInSection(t, OthersTitle, cats.others);
      assert HeaderLine(version, date)[2] != t[2];
    }
    TitlesDistinct();
  }

  lemma TitlesDistinct()
    ensures BreakingTitle != FeaturesTitle && BreakingTitle != FixesTitle && BreakingTitle != OthersTitle
    ensures FeaturesTitle != FixesTitle && FeaturesTitle != OthersTitle && FixesTitle != OthersTitle
  {
    assert BreakingTitle[4] != FeaturesTitle[4];
    assert BreakingTitle[4] != FixesTitle[4];
    assert BreakingTitle[4] != OthersTitle[4];
    assert FeaturesTitle[4] != FixesTitle[4];
    assert FeaturesTitle[4] != OthersTitle[4];
    assert FixesTitle[4] != OthersTitle[4];
  }
}
