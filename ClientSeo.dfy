/** The browser-side SEO helpers of js/main.js: plain-text summaries of
    article HTML, and the title, keywords and description read from a
    markdown file's first-line comment, with the lengths capped for
    search-engine display. */
module ClientSeo {
  import opened Text

  const DefaultKeywords: string := "招标代理,政府采购,工程招标,招投标服务,项目公告"

  /** The summary length the description fallback asks for. */
  const FallbackLength: nat := 100
  const MaxTitle: nat := 30
  const MaxDescription: nat := 120
  const MaxKeywords: nat := 5

  // ---------------------------------------------------------------------
  // Summaries
  // ---------------------------------------------------------------------

  /** The text of `content` once markup is gone (`stripHtml`, a DOM round
      trip), whitespace runs collapsed to one space and the ends trimmed. */
  function CleanText(content: string, stripHtml: string -> string): string {
    Squeeze(stripHtml(content), IsJsSpace)
  }

  /** `generateExcerpt` and `generateBaiduDescription`, which share one
      body: the cleaned text, truncated to `maxLength`. */
  function Summarize(content: string, maxLength: nat, stripHtml: string -> string): (r: string)
    ensures |r| <= maxLength + 3
    ensures |CleanText(content, stripHtml)| <= maxLength ==> r == CleanText(content, stripHtml)
  {
    Truncate(CleanText(content, stripHtml), maxLength)
  }

  /** The truncation step: the text itself when it fits, otherwise its
      first `maxLength` characters with trailing whitespace dropped and
      `...` appended. */
  function Truncate(clean: string, maxLength: nat): (r: string)
    ensures |clean| <= maxLength ==> r == clean
    ensures |clean| > maxLength ==>
              && EndsWith(r, "...")
              && var kept := r[..|r| - 3];
                 && |kept| <= maxLength
                 && kept == clean[..|kept|]
                 && (kept == [] || !IsJsSpace(kept[|kept| - 1]))
                 && AllOf(clean[|kept|..maxLength], IsJsSpace)
  {
    if |clean| <= maxLength then clean
    else
      var cut := clean[..maxLength];
      var kept := TrimEnd(cut, IsJsSpace);
      TrimEndParts(cut, IsJsSpace);
      assert (kept + "...")[..|kept|] == kept;
      assert (kept + "...")[|kept|..] == "...";
      assert clean[|kept|..maxLength] == cut[|kept|..];
      kept + "..."
  }

  /** A cut summary loses at most the one space the cut ends on: it is
      `maxLength + 2` or `maxLength + 3` characters long. */
  lemma SummaryCutLength(content: string, maxLength: nat, stripHtml: string -> string)
    requires |CleanText(content, stripHtml)| > maxLength >= 1
    ensures maxLength + 2 <= |Summarize(content, maxLength, stripHtml)| <= maxLength + 3
  {
    var clean := CleanText(content, stripHtml);
    var r := Summarize(content, maxLength, stripHtml);
    var kept := r[..|r| - 3];
    ShortBlankRun(clean, |kept|, maxLength);
  }

  /** In text without two whitespace characters in a row, a run of
      whitespace is at most one character long. */
  lemma ShortBlankRun(s: string, lo: nat, hi: nat)
    requires lo <= hi <= |s|
    requires NoDoubleSpace(s, IsJsSpace)
    requires AllOf(s[lo..hi], IsJsSpace)
    ensures hi - lo <= 1
  {
    forall i | lo <= i < hi ensures IsJsSpace(s[i]) {
      assert s[lo..hi][i - lo] == s[i];
    }
    if lo + 1 < |s| {
      assert !(IsJsSpace(s[lo]) && IsJsSpace(s[lo + 1]));
    }
  }

  // ---------------------------------------------------------------------
  // Title, keywords, description
  // ---------------------------------------------------------------------

  /** `filename.replace(/\.md$/i, '')`: one final `.md`, in any letter case. */
  function StripMdExtension(filename: string): (r: string)
    ensures r == filename || (|r| + 3 == |filename| && r == filename[..|r|])
  {
    var n := |filename|;
    if n >= 3 && filename[n - 3] == '.' && (filename[n - 2] == 'm' || filename[n - 2] == 'M')
       && (filename[n - 1] == 'd' || filename[n - 1] == 'D')
    then filename[..n - 3]
    else filename
  }

  lemma StripMdExtensionAnyCase(stem: string, ext: string)
    requires ext in {".md", ".MD", ".Md", ".mD"}
    ensures StripMdExtension(stem + ext) == stem
  {
    assert (stem + ext)[..|stem|] == stem;
  }

  /** A name that does not end in `.md`, in any letter case, is kept whole. */
  lemma StripMdExtensionKeepsOthers(filename: string)
    requires !(|filename| >= 3 && filename[|filename| - 3..] in {".md", ".MD", ".Md", ".mD"})
    ensures StripMdExtension(filename) == filename
  {
    var n := |filename|;
    if n >= 3 {
      var ext := filename[n - 3..];
      assert ext[0] == filename[n - 3] && ext[1] == filename[n - 2] && ext[2] == filename[n - 1];
      assert ext == [ext[0], ext[1], ext[2]];
    }
  }

  /** `s.substring(0, n)` where it is only applied to longer strings. */
  function Cap(s: string, n: nat): (r: string)
    ensures |r| <= n && |r| <= |s| && r == s[..|r|]
    ensures |s| <= n ==> r == s
    ensures |s| > n ==> |r| == n
  {
    if |s| > n then s[..n] else s
  }

  /** The keywords of a comment field: split on ASCII and full-width
      commas, trimmed, empty ones dropped. */
  function KeywordTokens(keywords: string): (r: seq<string>)
    ensures forall k | 0 <= k < |r| :: r[k] != []
  {
    NonEmpty(TrimAll(Split(keywords, {',', '，'})))
  }

  function TrimAll(parts: seq<string>): (r: seq<string>)
    ensures |r| == |parts|
    ensures forall k | 0 <= k < |r| :: r[k] == Trim(parts[k], IsJsSpace)
  {
    seq(|parts|, k requires 0 <= k < |parts| => Trim(parts[k], IsJsSpace))
  }

  function NonEmpty(parts: seq<string>): (r: seq<string>)
    ensures forall k | 0 <= k < |r| :: r[k] != [] && r[k] in parts
    ensures forall p | p in parts && p != [] :: p in r
    decreases |parts|
  {
    if parts == [] then []
    else (if parts[0] == [] then [] else [parts[0]]) + NonEmpty(parts[1..])
  }

  /** The keyword limit: more than five tokens are cut to the first five,
      joined with `,`; otherwise the trimmed field is kept as written. */
  function CapKeywords(keywords: string): string {
    var tokens := KeywordTokens(keywords);
    if |tokens| > MaxKeywords then Join(tokens[..MaxKeywords], ",") else keywords
  }

  /** A comma-free token is still comma-free after trimming. */
  lemma TrimSubslice(s: string)
    ensures var t := Trim(s, IsJsSpace);
            forall j | 0 <= j < |t| :: t[j] in s
  {
    TrimSlice(s, IsJsSpace);
    var t := Trim(s, IsJsSpace);
    var a := LeadingRun(s, IsJsSpace);
    forall j | 0 <= j < |t| ensures t[j] in s {
      assert t[j] == s[a + j];
    }
  }

  /** No keyword token holds a comma of either kind. */
  lemma TokensCommaFree(keywords: string)
    ensures forall k, j | 0 <= k < |KeywordTokens(keywords)| && 0 <= j < |KeywordTokens(keywords)[k]| ::
              KeywordTokens(keywords)[k][j] != ',' && KeywordTokens(keywords)[k][j] != '，'
  {
    var parts := Split(keywords, {',', '，'});
    var trimmed := TrimAll(parts);
    var tokens := KeywordTokens(keywords);
    forall k, j | 0 <= k < |tokens| && 0 <= j < |tokens[k]|
      ensures tokens[k][j] != ',' && tokens[k][j] != '，'
    {
      var i :| 0 <= i < |trimmed| && trimmed[i] == tokens[k];
      TrimSubslice(parts[i]);
      var m :| 0 <= m < |parts[i]| && parts[i][m] == tokens[k][j];
    }
  }

  /** When the limit applies, the result reads back as exactly the first
      five tokens: it splits on `,` into five non-empty keywords. */
  lemma CappedKeywordsReadBack(keywords: string)
    requires |KeywordTokens(keywords)| > MaxKeywords
    ensures Split(CapKeywords(keywords), {','}) == KeywordTokens(keywords)[..MaxKeywords]
    ensures |Split(CapKeywords(keywords), {','})| == MaxKeywords
  {
    var tokens := KeywordTokens(keywords);
    TokensCommaFree(keywords);
    SplitJoin(tokens[..MaxKeywords], ',');
  }

  /** At most five tokens: the field is kept exactly as written. */
  lemma FewKeywordsKept(keywords: string)
    requires |KeywordTokens(keywords)| <= MaxKeywords
    ensures CapKeywords(keywords) == keywords
  {
  }

  // ---------------------------------------------------------------------
  // Description fallback
  // ---------------------------------------------------------------------

  /** Replacing `^#+\s*` by nothing, globally and in multiline mode: at every line start (the start of the
      text or just after a line terminator), a run of `#` and the
      whitespace after it go; `atStart` says whether the text begins one. */
  function StripHeadingMarks(s: string, atStart: bool): (r: string)
    ensures |r| <= |s|
    decreases |s|
  {
    if s == [] then []
    else if atStart && s[0] == '#' then
      var k := LeadingRun(s, c => c == '#');
      var w := LeadingRun(s[k..], IsJsSpace);
      StripHeadingMarks(s[k + w..], IsJsLineTerminator(s[k + w - 1]))
    else [s[0]] + StripHeadingMarks(s[1..], IsJsLineTerminator(s[0]))
  }

  /** Text without `#` is left alone. */
  lemma {:induction false} NoHeadingMarksKept(s: string, atStart: bool)
    requires forall i | 0 <= i < |s| :: s[i] != '#'
    ensures StripHeadingMarks(s, atStart) == s
    decreases |s|
  {
    if s != [] {
      NoHeadingMarksKept(s[1..], IsJsLineTerminator(s[0]));
    }
  }

  /** The lines are joined with spaces before the marks are stripped, so
      only a heading on the first line loses its marks: `# title` and
      `## sub` become `title ## sub`. */
  lemma JoinedHeadingsKeepLaterMarks(title: string, sub: string)
    requires title != [] && !IsJsSpace(title[0])
    requires forall i | 0 <= i < |title| :: !IsJsLineTerminator(title[i])
    requires forall i | 0 <= i < |sub| :: !IsJsLineTerminator(sub[i])
    ensures StripHeadingMarks(Join(["# " + title, "## " + sub], " "), true) == title + " ## " + sub
  {
    var rest := title + " ## " + sub;
    JoinPair("# " + title, "## " + sub, " ");
    assert ("# " + title) + " " + ("## " + sub) == "# " + rest;
    assert rest[0] == title[0];
    HeadingStripped(rest);
    NoTerminatorInJoin(title, sub);
    NoLineStartAfter(rest);
  }

  lemma JoinPair(a: string, b: string, sep: string)
    ensures Join([a, b], sep) == a + sep + b
  {
    assert [a, b][1..] == [b];
  }

  lemma NoTerminatorInJoin(title: string, sub: string)
    requires forall i | 0 <= i < |title| :: !IsJsLineTerminator(title[i])
    requires forall i | 0 <= i < |sub| :: !IsJsLineTerminator(sub[i])
    ensures var rest := title + " ## " + sub;
            forall i | 0 <= i < |rest| :: !IsJsLineTerminator(rest[i])
  {
    var rest := title + " ## " + sub;
    forall i | 0 <= i < |rest| ensures !IsJsLineTerminator(rest[i]) {
      if i < |title| {
        assert rest[i] == title[i];
      } else if i >= |title| + 4 {
        assert rest[i] == sub[i - |title| - 4];
      }
    }
  }

  /** A first-line `# ` goes, and what follows it starts no line. */
  lemma HeadingStripped(rest: string)
    requires rest != [] && !IsJsSpace(rest[0])
    ensures StripHeadingMarks("# " + rest, true) == StripHeadingMarks(rest, false)
  {
    var s := "# " + rest;
    var k := LeadingRun(s, c => c == '#');
    assert s[0] == '#' && s[1] == ' ';
    assert k == 1;
    assert s[1..][0] == ' ' && s[1..][1] == rest[0];
    assert LeadingRun(s[1..], IsJsSpace) == 1;
    assert s[2..] == rest;
  }

  /** Text without line terminators has no line start in it. */
  lemma {:induction false} NoLineStartAfter(s: string)
    requires forall i | 0 <= i < |s| :: !IsJsLineTerminator(s[i])
    ensures StripHeadingMarks(s, false) == s
    decreases |s|
  {
    if s != [] {
      NoLineStartAfter(s[1..]);
    }
  }

  /** The text the description is taken from when the comment gives none:
      the lines after the comment (all lines without one), joined with
      spaces, heading marks stripped, trimmed. */
  function FallbackText(lines: seq<string>, commented: bool): string {
    var contentLines := if commented && |lines| > 0 then lines[1..] else lines;
    Trim(StripHeadingMarks(Join(contentLines, " "), true), IsJsSpace)
  }

  // ---------------------------------------------------------------------
  // parseSeoMeta
  // ---------------------------------------------------------------------

  datatype ClientMeta = ClientMeta(title: string, keywords: string, description: string)

  /** The lines of the trimmed markdown; there is always at least one. */
  function Lines(markdown: string): (r: seq<string>)
    ensures |r| >= 1
  {
    Split(Trim(markdown, IsJsSpace), {'\n'})
  }

  /** The first-line comment's body, if the first line holds one. */
  function SeoComment(markdown: string): Option<string> {
    CommentGroup(Lines(markdown)[0], IsJsSpace, IsJsLineTerminator)
  }

  /** The fields a first-line comment sets, each capped; a missing title
      or keywords field keeps its default, a missing description is empty. */
  function FromComment(comment: string, filename: string): ClientMeta {
    ClientMeta(
      match FieldAfter(comment, "title", IsJsSpace, 0)
      case None => StripMdExtension(filename)
      case Some(t) => Cap(t, MaxTitle),
      match FieldAfter(comment, "keywords", IsJsSpace, 0)
      case None => DefaultKeywords
      case Some(k) => CapKeywords(k),
      match FieldAfter(comment, "description", IsJsSpace, 0)
      case None => ""
      case Some(d) => Cap(d, MaxDescription))
  }

  /** `parseSeoMeta`: the defaults (title from the file name), overridden
      by the first-line comment's fields, with an empty description
      replaced by a summary of the remaining text. */
  function ParseSeoMeta(markdown: string, filename: string, stripHtml: string -> string): (r: ClientMeta)
    ensures |r.description| <= MaxDescription
  {
    var meta :=
      match SeoComment(markdown)
      case None => ClientMeta(StripMdExtension(filename), DefaultKeywords, "")
      case Some(comment) => FromComment(comment, filename);
    if meta.description == "" then
      meta.(description := Summarize(FallbackText(Lines(markdown), SeoComment(markdown).Some?), FallbackLength, stripHtml))
    else meta
  }

  /** A comment's title field gives a title of at most 30 characters that
      begins the field's value, and the whole value when it fits. */
  lemma CommentTitleCapped(markdown: string, filename: string, stripHtml: string -> string)
    requires SeoComment(markdown).Some?
    requires FieldAfter(SeoComment(markdown).value, "title", IsJsSpace, 0).Some?
    ensures var t := FieldAfter(SeoComment(markdown).value, "title", IsJsSpace, 0).value;
            var title := ParseSeoMeta(markdown, filename, stripHtml).title;
            && |title| <= MaxTitle && |title| <= |t| && title == t[..|title|]
            && (|t| <= MaxTitle ==> title == t)
  {
    var meta := FromComment(SeoComment(markdown).value, filename);
    assert ParseSeoMeta(markdown, filename, stripHtml).title == meta.title;
  }

  /** A non-empty description field gives a description of at most 120
      characters that begins the field's value. */
  lemma CommentDescriptionCapped(markdown: string, filename: string, stripHtml: string -> string)
    requires SeoComment(markdown).Some?
    requires FieldAfter(SeoComment(markdown).value, "description", IsJsSpace, 0).Some?
    requires FieldAfter(SeoComment(markdown).value, "description", IsJsSpace, 0).value != []
    ensures var d := FieldAfter(SeoComment(markdown).value, "description", IsJsSpace, 0).value;
            var description := ParseSeoMeta(markdown, filename, stripHtml).description;
            && |description| <= MaxDescription && |description| <= |d| && description == d[..|description|]
            && (|d| <= MaxDescription ==> description == d)
  {
    var d := FieldAfter(SeoComment(markdown).value, "description", IsJsSpace, 0).value;
    var meta := FromComment(SeoComment(markdown).value, filename);
    assert meta.description == Cap(d, MaxDescription) != [];
  }

  /** A keywords field listing more than five keywords reads back as
      exactly its first five. */
  lemma CommentKeywordsCapped(markdown: string, filename: string, stripHtml: string -> string)
    requires SeoComment(markdown).Some?
    requires FieldAfter(SeoComment(markdown).value, "keywords", IsJsSpace, 0).Some?
    requires |KeywordTokens(FieldAfter(SeoComment(markdown).value, "keywords", IsJsSpace, 0).value)| > MaxKeywords
    ensures var k := FieldAfter(SeoComment(markdown).value, "keywords", IsJsSpace, 0).value;
            Split(ParseSeoMeta(markdown, filename, stripHtml).keywords, {','}) == KeywordTokens(k)[..MaxKeywords]
  {
    var k := FieldAfter(SeoComment(markdown).value, "keywords", IsJsSpace, 0).value;
    CappedKeywordsReadBack(k);
    assert ParseSeoMeta(markdown, filename, stripHtml).keywords == CapKeywords(k);
  }

  /** An empty or missing description is always replaced by a summary of
      the text after the comment line, of at most 103 characters. */
  lemma DescriptionFallback(markdown: string, filename: string, stripHtml: string -> string)
    requires SeoComment(markdown).Some? ==>
               FieldAfter(SeoComment(markdown).value, "description", IsJsSpace, 0) in {None, Some("")}
    ensures var meta := ParseSeoMeta(markdown, filename, stripHtml);
            && meta.description == Summarize(FallbackText(Lines(markdown), SeoComment(markdown).Some?), FallbackLength, stripHtml)
            && |meta.description| <= FallbackLength + 3
  {
  }

  /** Without a first-line comment only the defaults and the fallback
      description apply; the title is the file name without `.md`. */
  lemma NoCommentDefaults(markdown: string, filename: string, stripHtml: string -> string)
    requires SeoComment(markdown).None?
    ensures var meta := ParseSeoMeta(markdown, filename, stripHtml);
            && meta.title == StripMdExtension(filename)
            && meta.keywords == DefaultKeywords
            && meta.description == Summarize(FallbackText(Lines(markdown), false), FallbackLength, stripHtml)
  {
  }
}
