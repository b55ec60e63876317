/** The alternative index generator generate_index.py: SEO metadata from a
    first-line comment, a category inferred from the file name, a collapsed
    plain-text excerpt, and the articles ordered newest first. */
module PyIndex {
  import opened Text

  /** `DEFAULT_CATEGORIES`, in dictionary order: each category with the
      file-name keywords that select it. */
  const CategoryTable: seq<(string, seq<string>)> := [
    ("中标公告", ["中标公告", "中标公示", "公示", "公告"]),
    ("政策解读", ["政策", "解读", "法规", "法律", "条例"]),
    ("招标流程", ["流程", "指南", "操作", "教程"]),
    ("投标技巧", ["技巧", "注意", "方法", "策略"])
  ]

  /** The category of a file no keyword matches. */
  const OtherCategory: string := "其他"

  const DefaultKeywords: string := "招标代理,政府采购,工程招标,招投标服务,项目公告"

  /** The length `generate_excerpt` cuts to when called without one. */
  const ExcerptLength: nat := 150

  // ---------------------------------------------------------------------
  // Category inference
  // ---------------------------------------------------------------------

  /** Whether some keyword of row `i` occurs in the lower-cased file name. */
  predicate RowMatches(nameLower: string, i: nat)
    requires i < |CategoryTable|
  {
    exists kw | kw in CategoryTable[i].1 :: Contains(nameLower, kw)
  }

  /** The first category from row `i` on whose keywords match, or "". */
  function CategoryFrom(nameLower: string, i: nat): string
    decreases |CategoryTable| - i
  {
    if i >= |CategoryTable| then ""
    else if RowMatches(nameLower, i) then CategoryTable[i].0
    else CategoryFrom(nameLower, i + 1)
  }

  /** The category `parse_seo_meta` assigns to a file with this lower-cased name. */
  function CategoryOf(nameLower: string): string {
    var c := CategoryFrom(nameLower, 0);
    if c == "" then OtherCategory else c
  }

  lemma {:induction false} CategoryFromFirstRow(nameLower: string, i: nat, from: nat)
    requires from <= i < |CategoryTable| && RowMatches(nameLower, i)
    requires forall j | from <= j < i :: !RowMatches(nameLower, j)
    ensures CategoryFrom(nameLower, from) == CategoryTable[i].0
    decreases i - from
  {
    if from < i {
      CategoryFromFirstRow(nameLower, i, from + 1);
    }
  }

  lemma {:induction false} CategoryFromNone(nameLower: string, from: nat)
    requires forall j | from <= j < |CategoryTable| :: !RowMatches(nameLower, j)
    ensures CategoryFrom(nameLower, from) == ""
    decreases |CategoryTable| - from
  {
    if from < |CategoryTable| {
      CategoryFromNone(nameLower, from + 1);
    }
  }

  lemma {:induction false} CategoryFromIsRow(nameLower: string, from: nat)
    ensures CategoryFrom(nameLower, from) == ""
            || exists i | from <= i < |CategoryTable| :: CategoryFrom(nameLower, from) == CategoryTable[i].0
    decreases |CategoryTable| - from
  {
    if from < |CategoryTable| && !RowMatches(nameLower, from) {
      CategoryFromIsRow(nameLower, from + 1);
    }
  }

  /** The first row, in dictionary order, with a matching keyword decides
      the category; when no row matches, and only then, it is "其他". */
  lemma CategoryIsFirstMatch(nameLower: string)
    ensures forall i | 0 <= i < |CategoryTable| && RowMatches(nameLower, i)
                       && (forall j | 0 <= j < i :: !RowMatches(nameLower, j)) ::
              CategoryOf(nameLower) == CategoryTable[i].0
    ensures CategoryOf(nameLower) == OtherCategory <==> forall i | 0 <= i < |CategoryTable| :: !RowMatches(nameLower, i)
  {
    forall i | 0 <= i < |CategoryTable| && RowMatches(nameLower, i)
               && (forall j | 0 <= j < i :: !RowMatches(nameLower, j))
      ensures CategoryOf(nameLower) == CategoryTable[i].0
    {
      CategoryFromFirstRow(nameLower, i, 0);
    }
    if forall i | 0 <= i < |CategoryTable| :: !RowMatches(nameLower, i) {
      CategoryFromNone(nameLower, 0);
    } else {
      CategoryFromIsRow(nameLower, 0);
    }
  }

  /** A file name holding `公告` is filed under 中标公告 even when it also
      names a later category, since that row is tried first. */
  lemma AnnouncementWinsOverPolicy(stem: string)
    ensures CategoryOf("政策" + stem + "公告") == "中标公告"
  {
    var name := "政策" + stem + "公告";
    assert HasAt(name, "公告", |name| - 2);
    assert "公告" in CategoryTable[0].1 && Contains(name, "公告");
    assert RowMatches(name, 0);
    CategoryIsFirstMatch(name);
  }

  /** The category loop of `parse_seo_meta`: the rows in order, stopping at
      the first with a keyword in the name; "其他" when none has one. */
  method InferCategory(filenameLower: string) returns (category: string)
    ensures category == CategoryOf(filenameLower)
  {
    category := "";
    for i := 0 to |CategoryTable|
      invariant category == ""
      invariant CategoryFrom(filenameLower, 0) == CategoryFrom(filenameLower, i)
    {
      var (name, keywords) := CategoryTable[i];
      if exists keyword | keyword in keywords :: Contains(filenameLower, keyword) {
        category := name;
        break;
      }
    }
    if category == "" {
      category := OtherCategory;
    }
  }

  // ---------------------------------------------------------------------
  // SEO metadata
  // ---------------------------------------------------------------------

  datatype SeoMeta = SeoMeta(title: string, keywords: string, description: string, category: string)

  /** The first line of the stripped content. */
  function FirstLine(content: string): string {
    Split(Trim(content, IsPySpace), {'\n'})[0]
  }

  /** The default title: the file name with every `.md` removed. */
  function DefaultTitle(filename: string): string {
    ReplaceAll(filename, ".md", "")
  }

  /** `parse_seo_meta` as one value: the defaults, overridden by the
      fields of a first-line `<!-- -->` comment, with the category from
      the file name. */
  function SeoMetaOf(content: string, filename: string, lower: string -> string): (meta: SeoMeta)
    ensures meta.category == CategoryOf(lower(filename))
  {
    var base := SeoMeta(DefaultTitle(filename), DefaultKeywords, "", "");
    var commented :=
      match CommentGroup(FirstLine(content), IsPySpace, IsNewline)
      case None => base
      case Some(comment) =>
        SeoMeta(FieldAfter(comment, "title", IsPySpace, 0).GetOr(base.title),
                FieldAfter(comment, "keywords", IsPySpace, 0).GetOr(base.keywords),
                FieldAfter(comment, "description", IsPySpace, 0).GetOr(base.description),
                "");
    commented.(category := CategoryOf(lower(filename)))
  }

  /** `parse_seo_meta`. */
  method ParseSeoMeta(content: string, filename: string, lower: string -> string) returns (meta: SeoMeta)
    ensures meta == SeoMetaOf(content, filename, lower)
  {
    var lines := Split(Trim(content, IsPySpace), {'\n'});
    var firstLine := lines[0];
    meta := SeoMeta(ReplaceAll(filename, ".md", ""), DefaultKeywords, "", "");
    var commentMatch := CommentGroup(firstLine, IsPySpace, IsNewline);
    if commentMatch.Some? {
      var comment := commentMatch.value;
      var titleMatch := FieldAfter(comment, "title", IsPySpace, 0);
      if titleMatch.Some? {
        meta := meta.(title := titleMatch.value);
      }
      var keywordsMatch := FieldAfter(comment, "keywords", IsPySpace, 0);
      if keywordsMatch.Some? {
        meta := meta.(keywords := keywordsMatch.value);
      }
      var descMatch := FieldAfter(comment, "description", IsPySpace, 0);
      if descMatch.Some? {
        meta := meta.(description := descMatch.value);
      }
    }
    var category := InferCategory(lower(filename));
    meta := meta.(category := category);
  }

  /** For a name with one `.md`, at its end, the default title is the name
      without it. */
  lemma {:induction false} DefaultTitleIsStem(stem: string)
    requires !Contains(stem, ".md")
    ensures DefaultTitle(stem + ".md") == stem
    decreases |stem|
  {
    var s := stem + ".md";
    if stem == [] {
      assert s == ".md";
      assert s[3..] == [];
    } else {
      assert s[1..] == stem[1..] + ".md";
      assert s[0] == stem[0];
      assert s[..3] != ".md" by {
        if |stem| >= 3 {
          assert s[..3] == stem[..3];
          assert !HasAt(stem, ".md", 0);
        } else if |stem| == 2 {
          assert s[2] == '.';
        } else {
          assert s[2] == 'm';
        }
      }
      assert !Contains(stem[1..], ".md") by {
        forall k: nat | k <= |stem[1..]| ensures !HasAt(stem[1..], ".md", k) {
          assert !HasAt(stem, ".md", k + 1);
          if k + 3 <= |stem[1..]| {
            assert stem[1..][k..k + 3] == stem[k + 1..k + 4];
          }
        }
      }
      DefaultTitleIsStem(stem[1..]);
      assert stem == [stem[0]] + stem[1..];
    }
  }


  /** Without a first-line comment every field keeps its default, whatever
      the rest of the file holds. */
  lemma NoCommentKeepsDefaults(content: string, stem: string, lower: string -> string)
    requires CommentGroup(FirstLine(content), IsPySpace, IsNewline).None?
    requires !Contains(stem, ".md")
    ensures SeoMetaOf(content, stem + ".md", lower) == SeoMeta(stem, DefaultKeywords, "", CategoryOf(lower(stem + ".md")))
  {
    DefaultTitleIsStem(stem);
  }

  /** A comment's `title:` field, when it has a usable one, replaces the
      default title by its first occurrence's trimmed value. */
  lemma CommentTitleOverrides(content: string, filename: string, lower: string -> string, i: nat)
    requires CommentGroup(FirstLine(content), IsPySpace, IsNewline).Some?
    requires var comment := CommentGroup(FirstLine(content), IsPySpace, IsNewline).value;
             FieldAt(comment, "title", i) && forall j: nat | j < i :: !FieldAt(comment, "title", j)
    ensures var comment := CommentGroup(FirstLine(content), IsPySpace, IsNewline).value;
            SeoMetaOf(content, filename, lower).title == Trim(UpToBar(comment[i + 6..]), IsPySpace)
  {
    var comment := CommentGroup(FirstLine(content), IsPySpace, IsNewline).value;
    FieldAfterFirst(comment, "title", IsPySpace, 0, i);
  }

  // ---------------------------------------------------------------------
  // Excerpt
  // ---------------------------------------------------------------------

  /** The characters `generate_excerpt` deletes as markdown markup. */
  const MarkupChars: set<char> := {'#', '*', '_', '`', '~', '[', ']', '(', ')', '<', '>'}

  /** No character of `s` is in `cs`. */
  predicate FreeOf(s: string, cs: set<char>) {
    forall i | 0 <= i < |s| :: s[i] !in cs
  }

  /** `re.sub('[...]', '', s)` for a character class `cs`. */
  function Without(s: string, cs: set<char>): (r: string)
    ensures FreeOf(r, cs)
    ensures |r| <= |s|
    decreases |s|
  {
    if s == [] then [] else (if s[0] in cs then [] else [s[0]]) + Without(s[1..], cs)
  }

  /** The content without its first line when that line opens a comment. */
  function DropSeoLine(content: string): string {
    var lines := Split(content, {'\n'});
    Join(if StartsWith(lines[0], "<!--") then lines[1..] else lines, "\n")
  }

  /** Dropping the SEO line removes exactly the text up to and including
      the first line break; otherwise the content is kept whole. */
  lemma DropSeoLineCuts(content: string)
    ensures var i := FindAny(content, {'\n'});
            DropSeoLine(content) ==
              if !StartsWith(Split(content, {'\n'})[0], "<!--") then content
              else if i < 0 then ""
              else content[i + 1..]
  {
    var i := FindAny(content, {'\n'});
    JoinSplit(content, '\n');
    if i >= 0 {
      JoinSplit(content[i + 1..], '\n');
    }
  }

  /** The plain text `generate_excerpt` measures: markup characters
      deleted, whitespace runs collapsed to one space, ends stripped. */
  function PlainText(content: string): string {
    Squeeze(Without(DropSeoLine(content), MarkupChars), IsPySpace)
  }

  /** `generate_excerpt`. */
  function GenerateExcerpt(content: string, maxLength: nat): (r: string)
    ensures var text := PlainText(content);
            && |r| <= maxLength + 3
            && (|text| <= maxLength ==> r == text)
            && (|text| > maxLength ==> |r| == maxLength + 3 && r[..maxLength] == text[..maxLength] && EndsWith(r, "..."))
  {
    var text := PlainText(content);
    if |text| <= maxLength then text else text[..maxLength] + "..."
  }

  /** What an excerpt looks like: no markup characters, every whitespace a
      single plain space, no space at either end (before any `...`), and
      every other character of the content after the SEO line, in order. */
  lemma ExcerptShape(content: string)
    ensures var text := PlainText(content);
            && FreeOf(text, MarkupChars)
            && NoDoubleSpace(text, IsPySpace) && SpacesAreBlanks(text, IsPySpace)
            && (text == [] || (!IsPySpace(text[0]) && !IsPySpace(text[|text| - 1])))
            && Visible(text, IsPySpace) == Visible(Without(DropSeoLine(content), MarkupChars), IsPySpace)
  {
    SqueezeAvoids(Without(DropSeoLine(content), MarkupChars), MarkupChars);
  }

  /** Squeezing whitespace brings in no character of a class without a
      space in it. */
  lemma SqueezeAvoids(s: string, cs: set<char>)
    requires ' ' !in cs
    requires FreeOf(s, cs)
    ensures FreeOf(Squeeze(s, IsPySpace), cs)
  {
    var collapsed := CollapseRuns(s, IsPySpace);
    CollapseKeepsChars(s, cs);
    var a, e := LeadingRun(collapsed, IsPySpace), TrimTo(collapsed, IsPySpace);
    assert Squeeze(s, IsPySpace) == collapsed[a..e];
    forall i | 0 <= i < e - a ensures collapsed[a..e][i] !in cs {
      assert collapsed[a..e][i] == collapsed[a + i];
    }
  }

  /** Collapsing whitespace introduces only spaces, never a character of a
      class the input was free of (when the class has no space in it). */
  lemma {:induction false} CollapseKeepsChars(s: string, cs: set<char>)
    requires ' ' !in cs
    requires FreeOf(s, cs)
    ensures FreeOf(CollapseRuns(s, IsPySpace), cs)
  {
    var r := CollapseRuns(s, IsPySpace);
    forall i | 0 <= i < |r| ensures r[i] !in cs {
      if !IsPySpace(r[i]) {
        VisibleMember(r, i, IsPySpace);
        VisibleFrom(s, IsPySpace, r[i]);
      }
    }
  }

  /** A visible character of `s` is a character of `Visible(s)`. */
  lemma {:induction false} VisibleMember(s: string, i: nat, ws: char -> bool)
    requires i < |s| && !ws(s[i])
    ensures s[i] in Visible(s, ws)
    decreases |s|
  {
    if i > 0 {
      VisibleMember(s[1..], i - 1, ws);
    }
  }

  /** Every character of `Visible(s)` is a character of `s`. */
  lemma {:induction false} VisibleFrom(s: string, ws: char -> bool, c: char)
    requires c in Visible(s, ws)
    ensures c in s
    decreases |s|
  {
    if s != [] && !(c == s[0]) {
      VisibleFrom(s[1..], ws, c);
    }
  }

  // ---------------------------------------------------------------------
  // Ordering articles newest first
  // ---------------------------------------------------------------------

  datatype PyArticle = PyArticle(filename: string, title: string, excerpt: string, date: string, category: string)

  /** Dates in non-increasing order, compared as strings. */
  predicate NewestFirst(xs: seq<PyArticle>) {
    forall i, j | 0 <= i < j < |xs| :: LexLessEq(xs[j].date, xs[i].date)
  }

  /** The articles dated `d`, in order. */
  function DatedOn(xs: seq<PyArticle>, d: string): seq<PyArticle>
    decreases |xs|
  {
    if xs == [] then [] else (if xs[0].date == d then [xs[0]] else []) + DatedOn(xs[1..], d)
  }

  lemma {:induction false} DatedOnSnoc(xs: seq<PyArticle>, x: PyArticle, d: string)
    ensures DatedOn(xs + [x], d) == DatedOn(xs, d) + (if x.date == d then [x] else [])
    decreases |xs|
  {
    if xs == [] {
      assert [x][1..] == [];
    } else {
      assert (xs + [x])[0] == xs[0];
      assert (xs + [x])[1..] == xs[1..] + [x];
      DatedOnSnoc(xs[1..], x, d);
      DatedOnCons(xs[0], xs[1..] + [x], d);
      DatedOnCons(xs[0], xs[1..], d);
      assert [xs[0]] + xs[1..] == xs;
    }
  }

  lemma DatedOnCons(x: PyArticle, xs: seq<PyArticle>, d: string)
    ensures DatedOn([x] + xs, d) == (if x.date == d then [x] else []) + DatedOn(xs, d)
  {
    assert ([x] + xs)[1..] == xs;
  }

  lemma {:induction false} DatedOnNone(xs: seq<PyArticle>, d: string)
    requires forall i | 0 <= i < |xs| :: xs[i].date != d
    ensures DatedOn(xs, d) == []
    decreases |xs|
  {
    if xs != [] {
      DatedOnNone(xs[1..], d);
    }
  }

  /** Puts `x` after every article at least as new, before the first older one. */
  function InsertByDate(x: PyArticle, xs: seq<PyArticle>): (r: seq<PyArticle>)
    ensures |r| == |xs| + 1
    decreases |xs|
  {
    if xs == [] then [x]
    else if LexLessEq(x.date, xs[0].date) then [xs[0]] + InsertByDate(x, xs[1..])
    else [x] + xs
  }

  /** Inserting adds `x` and loses nothing. */
  lemma {:induction false} InsertByDatePermutes(x: PyArticle, xs: seq<PyArticle>)
    ensures multiset(InsertByDate(x, xs)) == multiset(xs) + multiset{x}
    decreases |xs|
  {
    if xs != [] {
      assert xs == [xs[0]] + xs[1..];
      if LexLessEq(x.date, xs[0].date) {
        InsertByDatePermutes(x, xs[1..]);
      }
    }
  }

  /** Inserting into a newest-first list keeps it newest first. */
  lemma {:induction false} InsertByDateSorted(x: PyArticle, xs: seq<PyArticle>)
    requires NewestFirst(xs)
    ensures NewestFirst(InsertByDate(x, xs))
    decreases |xs|
  {
    if xs == [] {
    } else if LexLessEq(x.date, xs[0].date) {
      InsertByDateSorted(x, xs[1..]);
      InsertStaysBelow(x, xs[1..], xs[0].date);
      InsertBehindHead(x, xs);
      ConsNewestFirst(xs[0], InsertByDate(x, xs[1..]));
    } else {
      LexTotal(x.date, xs[0].date);
      forall j | 0 < j < |xs| ensures LexLessEq(xs[j].date, x.date) {
        LexTransitive(xs[j].date, xs[0].date, x.date);
      }
      ConsNewestFirst(x, xs);
    }
  }

  /** All dates of a list are at most `bound`. */
  predicate DatedUpTo(xs: seq<PyArticle>, bound: string) {
    forall j | 0 <= j < |xs| :: LexLessEq(xs[j].date, bound)
  }

  /** Inserting an article no newer than `bound` into a list no newer than
      `bound` gives a list no newer than `bound`. */
  lemma InsertStaysBelow(x: PyArticle, xs: seq<PyArticle>, bound: string)
    requires LexLessEq(x.date, bound) && DatedUpTo(xs, bound)
    ensures DatedUpTo(InsertByDate(x, xs), bound)
  {
    var r := InsertByDate(x, xs);
    InsertByDatePermutes(x, xs);
    forall j | 0 <= j < |r| ensures LexLessEq(r[j].date, bound) {
      assert r[j] in multiset(r);
      if r[j] != x {
        assert r[j] in multiset(xs);
        var k :| 0 <= k < |xs| && xs[k] == r[j];
      }
    }
  }

  /** A newest-first list stays so behind an article at least as new as
      all of it. */
  lemma ConsNewestFirst(h: PyArticle, xs: seq<PyArticle>)
    requires NewestFirst(xs) && DatedUpTo(xs, h.date)
    ensures NewestFirst([h] + xs)
  {
    var r := [h] + xs;
    forall i, j | 0 <= i < j < |r| ensures LexLessEq(r[j].date, r[i].date) {
      assert r[j] == xs[j - 1];
      if i > 0 {
        assert r[i] == xs[i - 1];
      }
    }
  }

  /** An article newer than the first of a newest-first list shares its
      date with none of them. */
  lemma NewerThanAll(x: PyArticle, xs: seq<PyArticle>)
    requires NewestFirst(xs) && xs != [] && !LexLessEq(x.date, xs[0].date)
    ensures DatedOn(xs, x.date) == []
  {
    LexTotal(x.date, x.date);
    assert forall j | 0 <= j < |xs| :: xs[j].date != x.date;
    DatedOnNone(xs, x.date);
  }

  /** Inserting keeps the order among articles of one date, `x` last. */
  lemma {:induction false} InsertByDateStable(x: PyArticle, xs: seq<PyArticle>, d: string)
    requires NewestFirst(xs)
    ensures DatedOn(InsertByDate(x, xs), d) == DatedOn(xs, d) + (if x.date == d then [x] else [])
    decreases |xs|
  {
    if xs == [] {
      assert [x][1..] == [];
    } else if LexLessEq(x.date, xs[0].date) {
      InsertByDateStable(x, xs[1..], d);
      InsertBehindHead(x, xs);
      InsertAfterHead(xs[0], InsertByDate(x, xs[1..]), xs[1..], if x.date == d then [x] else [], d);
      assert [xs[0]] + xs[1..] == xs;
    } else {
      InsertAtHead(x, xs, d);
    }
  }

  /** Putting the same article in front of two lists whose dated articles
      differ by a suffix keeps that difference. */
  lemma InsertAfterHead(h: PyArticle, rest: seq<PyArticle>, xs: seq<PyArticle>, tail: seq<PyArticle>, d: string)
    requires DatedOn(rest, d) == DatedOn(xs, d) + tail
    ensures DatedOn([h] + rest, d) == DatedOn([h] + xs, d) + tail
  {
    DatedOnCons(h, rest, d);
    DatedOnCons(h, xs, d);
  }

  lemma InsertBehindHead(x: PyArticle, xs: seq<PyArticle>)
    requires xs != [] && LexLessEq(x.date, xs[0].date)
    ensures InsertByDate(x, xs) == [xs[0]] + InsertByDate(x, xs[1..])
  {
  }

  lemma InsertAtHead(x: PyArticle, xs: seq<PyArticle>, d: string)
    requires NewestFirst(xs) && xs != [] && !LexLessEq(x.date, xs[0].date)
    ensures DatedOn(InsertByDate(x, xs), d) == DatedOn(xs, d) + (if x.date == d then [x] else [])
  {
    assert InsertByDate(x, xs) == [x] + xs;
    DatedOnCons(x, xs, d);
    if x.date == d {
      NewerThanAll(x, xs);
    }
  }

  /** `articles.sort(key=date, reverse=True)`: newest first, articles of
      equal date in their original order. */
  function SortNewestFirst(xs: seq<PyArticle>): (r: seq<PyArticle>)
    ensures NewestFirst(r)
    ensures multiset(r) == multiset(xs)
    decreases |xs|
  {
    if xs == [] then []
    else
      var sorted := SortNewestFirst(xs[..|xs| - 1]);
      assert xs == xs[..|xs| - 1] + [xs[|xs| - 1]];
      InsertByDateSorted(xs[|xs| - 1], sorted);
      InsertByDatePermutes(xs[|xs| - 1], sorted);
      InsertByDate(xs[|xs| - 1], sorted)
  }

  /** The sort is stable: for every date, the articles of that date keep
      their relative order. */
  lemma {:induction false} SortNewestFirstStable(xs: seq<PyArticle>, d: string)
    ensures DatedOn(SortNewestFirst(xs), d) == DatedOn(xs, d)
    decreases |xs|
  {
    if xs != [] {
      var init, last := xs[..|xs| - 1], xs[|xs| - 1];
      SortNewestFirstStable(init, d);
      StableStep(init, last, SortNewestFirst(init), d);
      assert xs == init + [last];
    }
  }

  /** One insertion step of the sort keeps each date's articles in order. */
  lemma StableStep(init: seq<PyArticle>, last: PyArticle, sorted: seq<PyArticle>, d: string)
    requires NewestFirst(sorted) && DatedOn(sorted, d) == DatedOn(init, d)
    ensures DatedOn(InsertByDate(last, sorted), d) == DatedOn(init + [last], d)
  {
    InsertByDateStable(last, sorted, d);
    DatedOnSnoc(init, last, d);
  }

  // ---------------------------------------------------------------------
  // The generator
  // ---------------------------------------------------------------------

  /** The record written as `index.json`. */
  datatype PyArticleIndex = PyArticleIndex(version: string, lastUpdated: string, total: nat, articles: seq<PyArticle>)

  /** `scan_markdown_files`: the directory's `*.md` entries, none when the
      directory is missing. */
  function ScanMarkdownFiles(dirExists: bool, names: seq<string>): (r: seq<string>)
    ensures forall n :: n in r <==> dirExists && n in names && EndsWith(n, ".md")
    decreases |names|
  {
    if !dirExists || names == [] then []
    else
      var last := names[|names| - 1];
      assert names == names[..|names| - 1] + [last];
      ScanMarkdownFiles(dirExists, names[..|names| - 1]) + (if EndsWith(last, ".md") then [last] else [])
  }

  /** The entry for one file that could be read. */
  function EntryFor(filename: string, content: string, mtime: string -> string, lower: string -> string): PyArticle {
    var meta := SeoMetaOf(content, filename, lower);
    PyArticle(filename, meta.title, GenerateExcerpt(content, ExcerptLength), mtime(filename), meta.category)
  }

  /** `EntryFor` with the run's dates and lower-casing fixed. */
  function Entries(mtime: string -> string, lower: string -> string): (string, string) -> PyArticle {
    (file, content) => EntryFor(file, content, mtime, lower)
  }

  /** The entries `entry` makes for the files that could be read, in scan
      order; a file whose reading raises is reported and skipped. */
  function Processed(files: seq<string>, read: string -> Option<string>, entry: (string, string) -> PyArticle): seq<PyArticle>
    decreases |files|
  {
    if files == [] then []
    else
      var last := files[|files| - 1];
      Processed(files[..|files| - 1], read, entry)
      + match read(last) case None => [] case Some(content) => [entry(last, content)]
  }

  /** Processing one more file appends at most its own entry. */
  lemma ProcessedStep(files: seq<string>, k: nat, read: string -> Option<string>, entry: (string, string) -> PyArticle)
    requires k < |files|
    ensures Processed(files[..k + 1], read, entry) ==
      Processed(files[..k], read, entry)
      + match read(files[k]) case None => [] case Some(content) => [entry(files[k], content)]
  {
    assert files[..k + 1][..k] == files[..k];
  }

  /** `a` is the entry of the readable file `f`. */
  predicate MadeFrom(a: PyArticle, f: string, read: string -> Option<string>, entry: (string, string) -> PyArticle) {
    read(f).Some? && a == entry(f, read(f).value)
  }

  /** Exactly the readable files get an entry: every entry is made from one
      of the files, and every readable file's entry is there. */
  lemma {:induction false} ProcessedEntries(files: seq<string>, read: string -> Option<string>, entry: (string, string) -> PyArticle)
    ensures var r := Processed(files, read, entry);
            && |r| <= |files|
            && (forall a | a in r :: exists f | f in files :: MadeFrom(a, f, read, entry))
            && (forall f | f in files && read(f).Some? :: entry(f, read(f).value) in r)
    decreases |files|
  {
    if files != [] {
      var init, last := files[..|files| - 1], files[|files| - 1];
      ProcessedEntries(init, read, entry);
      var done := Processed(init, read, entry);
      var more := match read(last) case None => [] case Some(content) => [entry(last, content)];
      assert Processed(files, read, entry) == done + more;
      forall a | a in done + more ensures exists f | f in files :: MadeFrom(a, f, read, entry) {
        if a in done {
          var f :| f in init && MadeFrom(a, f, read, entry);
          assert f in files;
        } else {
          assert MadeFrom(a, last, read, entry);
        }
      }
      forall f | f in files && read(f).Some? ensures entry(f, read(f).value) in done + more {
        if f != last {
          var j :| 0 <= j < |files| && files[j] == f;
          assert init[j] == f;
        }
      }
    }
  }

  /** `generate_index`.  The directory is `names`; `read` gives a file's
      text or `None` where reading it raises; `mtime` gives a file's date
      (the commit time, the file time or the current time, whichever is
      available); `now` is the time of the run.  `None` means nothing is
      written because no `.md` file was found. */
  method GenerateIndex(
    dirExists: bool, names: seq<string>, read: string -> Option<string>,
    mtime: string -> string, now: string, lower: string -> string)
    returns (written: Option<PyArticleIndex>)
    ensures var files := ScanMarkdownFiles(dirExists, names);
            files == [] ==> written.None?
    ensures var files := ScanMarkdownFiles(dirExists, names);
            files != [] ==>
              var articles := SortNewestFirst(Processed(files, read, Entries(mtime, lower)));
              written == Some(PyArticleIndex("1.0", now, |articles|, articles))
  {
    var markdownFiles := ScanMarkdownFiles(dirExists, names);
    if markdownFiles == [] {
      return None;
    }
    var articles: seq<PyArticle> := [];
    for k := 0 to |markdownFiles|
      invariant articles == Processed(markdownFiles[..k], read, Entries(mtime, lower))
    {
      ProcessedStep(markdownFiles, k, read, Entries(mtime, lower));
      var filename := markdownFiles[k];
      var content := read(filename);
      if content.None? {
        continue;
      }
      var meta := ParseSeoMeta(content.value, filename, lower);
      var excerpt := GenerateExcerpt(content.value, ExcerptLength);
      if meta.description == "" {
        // Stored on the metadata only: the entry below has no description.
        meta := meta.(description := excerpt);
      }
      var date := mtime(filename);
      var article := PyArticle(filename, meta.title, excerpt, date, meta.category);
      assert article == Entries(mtime, lower)(filename, content.value);
      articles := articles + [article];
    }
    assert markdownFiles[..|markdownFiles|] == markdownFiles;
    articles := SortNewestFirst(articles);
    return Some(PyArticleIndex("1.0", now, |articles|, articles));
  }

  /** A written index lists each readable `.md` file once per scan entry,
      newest first, equal dates in scan order, and counts them. */
  lemma WrittenIndex(dirExists: bool, names: seq<string>, read: string -> Option<string>, mtime: string -> string, now: string, lower: string -> string, d: string)
    ensures var files := ScanMarkdownFiles(dirExists, names);
            var processed := Processed(files, read, Entries(mtime, lower));
            var articles := SortNewestFirst(processed);
            && NewestFirst(articles)
            && multiset(articles) == multiset(processed)
            && DatedOn(articles, d) == DatedOn(processed, d)
            && (forall a | a in articles :: a.filename in names && EndsWith(a.filename, ".md") && read(a.filename).Some?)
            && (forall f | f in files && read(f).Some? :: EntryFor(f, read(f).value, mtime, lower) in articles)
  {
    var files := ScanMarkdownFiles(dirExists, names);
    var entry := Entries(mtime, lower);
    var processed := Processed(files, read, entry);
    var articles := SortNewestFirst(processed);
    ProcessedEntries(files, read, entry);
    SortNewestFirstStable(processed, d);
    forall a | a in articles ensures a.filename in names && EndsWith(a.filename, ".md") && read(a.filename).Some? {
      assert a in multiset(articles);
      assert a in processed;
      var f :| f in files && MadeFrom(a, f, read, entry);
      assert a == EntryFor(f, read(f).value, mtime, lower);
    }
    forall f | f in files && read(f).Some? ensures EntryFor(f, read(f).value, mtime, lower) in articles {
      assert entry(f, read(f).value) in multiset(processed);
    }
  }
}
