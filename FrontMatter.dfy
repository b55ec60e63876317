/** The build-time front-matter extractor of build-index.js.  One working
    record starts from the defaults and is updated in place by three
    encodings tried in order: the first `<!-- -->` comment anywhere in the
    document, a `---` block at its very start, and `key: value` lines among
    its first five lines.  It never fails. */
module FrontMatter {
  import opened Text

  const DefaultTitle: string := "未命名文章"
  const DefaultCategory: string := "招标信息"
  /** The title the authoring template ships with; a comment carrying it is not accepted. */
  const PlaceholderTitle: string := "文章标题（百度：20-30个中文字符）"

  datatype Metadata = Metadata(title: string, description: string, keywords: string, category: string, date: string)

  /** `DEFAULT_METADATA`; its date is the time the script was loaded. */
  function Defaults(loadTime: string): Metadata {
    Metadata(DefaultTitle, "", "", DefaultCategory, loadTime)
  }

  datatype Field = Title | Description | Keywords | Category | Date

  function Get(m: Metadata, f: Field): string {
    match f
    case Title => m.title
    case Description => m.description
    case Keywords => m.keywords
    case Category => m.category
    case Date => m.date
  }

  function Set(m: Metadata, f: Field, v: string): (r: Metadata)
    ensures Get(r, f) == v
    ensures forall g: Field | g != f :: Get(r, g) == Get(m, g)
  {
    match f
    case Title => m.(title := v)
    case Description => m.(description := v)
    case Keywords => m.(keywords := v)
    case Category => m.(category := v)
    case Date => m.(date := v)
  }

  /** The field a trimmed, lower-cased key names.  The Chinese names count
      only where `bilingual` holds (comment and top-line encodings). */
  function FieldNamed(key: string, bilingual: bool): Option<Field> {
    if key == "title" || (bilingual && key == "标题") then Some(Title)
    else if key == "description" || (bilingual && key == "描述") then Some(Description)
    else if key == "keywords" || (bilingual && key == "关键词") then Some(Keywords)
    else if key == "category" || (bilingual && key == "分类") then Some(Category)
    else if key == "date" || (bilingual && key == "日期") then Some(Date)
    else None
  }

  predicate IsQuote(c: char) {
    c == '\'' || c == '"'
  }

  /** `value.replace(/^['"]|['"]$/g, '')`: one quote character goes from
      each end where there is one; nothing else changes.  A lone quote
      character is the leading match and leaves nothing. */
  function StripQuotes(v: string): (r: string)
    ensures |v| == 1 && IsQuote(v[0]) ==> r == []
    ensures |v| >= 2 && IsQuote(v[0]) && IsQuote(v[|v| - 1]) ==> r == v[1..|v| - 1]
    ensures v == [] || (!IsQuote(v[0]) && !IsQuote(v[|v| - 1])) ==> r == v
    ensures |v| >= 1 && IsQuote(v[0]) && !IsQuote(v[|v| - 1]) ==> r == v[1..]
    ensures |v| >= 1 && !IsQuote(v[0]) && IsQuote(v[|v| - 1]) ==> r == v[..|v| - 1]
    ensures |v| - 2 <= |r| <= |v|
  {
    var a := if v != [] && IsQuote(v[0]) then v[1..] else v;
    if a != [] && IsQuote(a[|a| - 1]) then a[..|a| - 1] else a
  }

  /** The assignment one `key: value` text makes: the key is the text before
      the first colon, trimmed and lower-cased; the value the trimmed rest. */
  function KeyValue(text: string, lower: string -> string, bilingual: bool, unquote: bool): Option<(Field, string)> {
    var colon := IndexOf(text, ":", 0);
    if colon < 0 then None
    else
      match FieldNamed(lower(Trim(text[..colon], IsJsSpace)), bilingual)
      case None => None
      case Some(f) =>
        var value := Trim(text[colon + 1..], IsJsSpace);
        Some((f, if unquote then StripQuotes(value) else value))
  }

  /** The chain of key comparisons each parser runs on one key and value:
      a known key overwrites its field, any other key is ignored. */
  function Assign(m: Metadata, key: string, value: string, bilingual: bool): (r: Metadata)
    ensures FieldNamed(key, bilingual).None? ==> r == m
    ensures FieldNamed(key, bilingual).Some? ==> r == Set(m, FieldNamed(key, bilingual).value, value)
  {
    if key == "title" || (bilingual && key == "标题") then m.(title := value)
    else if key == "description" || (bilingual && key == "描述") then m.(description := value)
    else if key == "keywords" || (bilingual && key == "关键词") then m.(keywords := value)
    else if key == "category" || (bilingual && key == "分类") then m.(category := value)
    else if key == "date" || (bilingual && key == "日期") then m.(date := value)
    else m
  }

  /** `KeyValue` read as the statements the parsers run: find the colon,
      cut out key and value, then run the key comparisons. */
  lemma KeyValueStep(text: string, lower: string -> string, m: Metadata, bilingual: bool, unquote: bool)
    ensures Apply(m, KeyValue(text, lower, bilingual, unquote)) ==
      var colon := IndexOf(text, ":", 0);
      if colon == -1 then m
      else
        var value := Trim(text[colon + 1..], IsJsSpace);
        Assign(m, lower(Trim(text[..colon], IsJsSpace)), if unquote then StripQuotes(value) else value, bilingual)
  {
  }

  datatype Encoding = CommentBlock | YamlBlock | TopLines

  /** The assignment one item of an encoding makes: a `|`-separated part of
      a comment line, a line of the `---` block (English keys only), or one
      of the top lines (trimmed first; blank and `#` lines are skipped, and
      values keep their quotes). */
  function Entry(enc: Encoding, text: string, lower: string -> string): Option<(Field, string)> {
    match enc
    case CommentBlock => KeyValue(text, lower, true, true)
    case YamlBlock => KeyValue(text, lower, false, true)
    case TopLines =>
      var line := Trim(text, IsJsSpace);
      if line == [] || line[0] == '#' then None else KeyValue(line, lower, true, false)
  }

  predicate Assigns(enc: Encoding, text: string, lower: string -> string, f: Field) {
    Entry(enc, text, lower).Some? && Entry(enc, text, lower).value.0 == f
  }

  function Apply(m: Metadata, e: Option<(Field, string)>): Metadata {
    match e
    case None => m
    case Some((f, v)) => Set(m, f, v)
  }

  /** The record after the items' assignments, in order, on `m`. */
  function Absorb(m: Metadata, items: seq<string>, enc: Encoding, lower: string -> string): Metadata
    decreases |items|
  {
    if items == [] then m
    else Apply(Absorb(m, items[..|items| - 1], enc, lower), Entry(enc, items[|items| - 1], lower))
  }

  lemma {:induction false} AbsorbAppend(m: Metadata, a: seq<string>, b: seq<string>, enc: Encoding, lower: string -> string)
    ensures Absorb(m, a + b, enc, lower) == Absorb(Absorb(m, a, enc, lower), b, enc, lower)
    decreases |b|
  {
    if b == [] {
      assert a + b == a;
    } else {
      assert (a + b)[..|a + b| - 1] == a + b[..|b| - 1];
      assert (a + b)[|a + b| - 1] == b[|b| - 1];
      AbsorbAppend(m, a, b[..|b| - 1], enc, lower);
    }
  }

  lemma AbsorbSnoc(m: Metadata, items: seq<string>, x: string, enc: Encoding, lower: string -> string)
    ensures Absorb(m, items + [x], enc, lower) == Apply(Absorb(m, items, enc, lower), Entry(enc, x, lower))
  {
    assert (items + [x])[..|items|] == items;
  }

  /** The record after the first `i + 1` items is the record after the
      first `i` with item `i`'s assignment applied. */
  lemma AbsorbPrefix(m: Metadata, items: seq<string>, i: nat, enc: Encoding, lower: string -> string)
    requires i < |items|
    ensures Absorb(m, items[..i + 1], enc, lower) == Apply(Absorb(m, items[..i], enc, lower), Entry(enc, items[i], lower))
  {
    assert items[..i + 1][..i] == items[..i];
  }

  /** A field no item assigns keeps its incoming value. */
  lemma {:induction false} AbsorbUntouched(m: Metadata, items: seq<string>, enc: Encoding, lower: string -> string, f: Field)
    requires forall i | 0 <= i < |items| :: !Assigns(enc, items[i], lower, f)
    ensures Get(Absorb(m, items, enc, lower), f) == Get(m, f)
    decreases |items|
  {
    if items != [] {
      var init := items[..|items| - 1];
      assert forall i | 0 <= i < |init| :: init[i] == items[i];
      AbsorbUntouched(m, init, enc, lower, f);
      assert !Assigns(enc, items[|items| - 1], lower, f);
    }
  }

  /** Items that assign nothing leave the record as it was. */
  lemma {:induction false} AbsorbInert(m: Metadata, items: seq<string>, enc: Encoding, lower: string -> string)
    requires forall i | 0 <= i < |items| :: Entry(enc, items[i], lower).None?
    ensures Absorb(m, items, enc, lower) == m
    decreases |items|
  {
    if items != [] {
      var init := items[..|items| - 1];
      assert forall i | 0 <= i < |init| :: init[i] == items[i];
      AbsorbInert(m, init, enc, lower);
    }
  }

  /** A later occurrence of a key overwrites an earlier one: the field holds
      the value of the last item that assigns it. */
  lemma {:induction false} AbsorbLastWins(m: Metadata, items: seq<string>, enc: Encoding, lower: string -> string, f: Field, i: nat)
    requires i < |items| && Assigns(enc, items[i], lower, f)
    requires forall j | i < j < |items| :: !Assigns(enc, items[j], lower, f)
    ensures Get(Absorb(m, items, enc, lower), f) == Entry(enc, items[i], lower).value.1
    decreases |items|
  {
    var init, e := items[..|items| - 1], Entry(enc, items[|items| - 1], lower);
    assert Absorb(m, items, enc, lower) == Apply(Absorb(m, init, enc, lower), e);
    if i < |items| - 1 {
      assert forall j | i <= j < |init| :: init[j] == items[j];
      AbsorbLastWins(m, init, enc, lower, f, i);
      ApplyKeeps(Absorb(m, init, enc, lower), e, f);
    } else {
      ApplySets(Absorb(m, init, enc, lower), e, f);
    }
  }

  lemma ApplyKeeps(m: Metadata, e: Option<(Field, string)>, f: Field)
    requires !(e.Some? && e.value.0 == f)
    ensures Get(Apply(m, e), f) == Get(m, f)
  {
  }

  lemma ApplySets(m: Metadata, e: Option<(Field, string)>, f: Field)
    requires e.Some? && e.value.0 == f
    ensures Get(Apply(m, e), f) == e.value.1
  {
  }

  // ---------------------------------------------------------------------
  // The comment encoding
  // ---------------------------------------------------------------------

  /** The `|`-separated parts of the lines, line after line. */
  function PartsOf(lines: seq<string>): seq<string>
    decreases |lines|
  {
    if lines == [] then [] else PartsOf(lines[..|lines| - 1]) + Split(lines[|lines| - 1], {'|'})
  }

  lemma PartsOfPrefix(lines: seq<string>, i: nat)
    requires i < |lines|
    ensures PartsOf(lines[..i + 1]) == PartsOf(lines[..i]) + Split(lines[i], {'|'})
  {
    assert lines[..i + 1][..i] == lines[..i];
  }

  /** One more element of `parts` after `done`. */
  lemma ExtendPrefix(done: seq<string>, parts: seq<string>, j: nat)
    requires j < |parts|
    ensures done + parts[..j + 1] == (done + parts[..j]) + [parts[j]]
  {
    assert parts[..j + 1] == parts[..j] + [parts[j]];
  }

  function CommentParts(commentContent: string): seq<string> {
    PartsOf(Split(commentContent, {'\n'}))
  }

  /** `parseCommentMetadata`: every line, every `|` part, assigned in order. */
  method ParseCommentMetadata(commentContent: string, metadata: Metadata, lower: string -> string) returns (r: Metadata)
    ensures r == Absorb(metadata, CommentParts(commentContent), CommentBlock, lower)
  {
    var lines := Split(commentContent, {'\n'});
    r := metadata;
    for i := 0 to |lines|
      invariant r == Absorb(metadata, PartsOf(lines[..i]), CommentBlock, lower)
    {
      var parts := Split(lines[i], {'|'});
      ghost var done := PartsOf(lines[..i]);
      assert done + parts[..0] == done;
      for j := 0 to |parts|
        invariant r == Absorb(metadata, done + parts[..j], CommentBlock, lower)
      {
        var part := parts[j];
        KeyValueStep(part, lower, r, true, true);
        var colonIndex := IndexOf(part, ":", 0);
        if colonIndex != -1 {
          var key := lower(Trim(part[..colonIndex], IsJsSpace));
          var value := Trim(part[colonIndex + 1..], IsJsSpace);
          value := StripQuotes(value);
          r := Assign(r, key, value, true);
        }
        ExtendPrefix(done, parts, j);
        AbsorbSnoc(metadata, done + parts[..j], part, CommentBlock, lower);
      }
      assert parts[..|parts|] == parts;
      PartsOfPrefix(lines, i);
    }
    assert lines[..|lines|] == lines;
  }

  // ---------------------------------------------------------------------
  // The `---` encoding
  // ---------------------------------------------------------------------

  /** `parseYamlMetadata`: every line of the block assigned in order. */
  method ParseYamlMetadata(yamlContent: string, metadata: Metadata, lower: string -> string) returns (r: Metadata)
    ensures r == Absorb(metadata, Split(yamlContent, {'\n'}), YamlBlock, lower)
  {
    var lines := Split(yamlContent, {'\n'});
    r := metadata;
    for i := 0 to |lines|
      invariant r == Absorb(metadata, lines[..i], YamlBlock, lower)
    {
      var line := lines[i];
      KeyValueStep(line, lower, r, false, true);
      var colonIndex := IndexOf(line, ":", 0);
      if colonIndex != -1 {
        var key := lower(Trim(line[..colonIndex], IsJsSpace));
        var value := Trim(line[colonIndex + 1..], IsJsSpace);
        value := StripQuotes(value);
        r := Assign(r, key, value, false);
      }
      AbsorbPrefix(metadata, lines, i, YamlBlock, lower);
    }
    assert lines[..|lines|] == lines;
  }

  // ---------------------------------------------------------------------
  // The whole extractor
  // ---------------------------------------------------------------------

  /** Length of the alternative of `/<!--|-->|百度SEO|首行注释规范/` that
      matches at the start of `s`, or 0. */
  function MarkerAt(s: string): nat {
    if StartsWith(s, "<!--") then 4
    else if StartsWith(s, "-->") then 3
    else if StartsWith(s, "百度SEO") then 5
    else if StartsWith(s, "首行注释规范") then 6
    else 0
  }

  predicate HasMarker(s: string) {
    exists i: nat | i < |s| :: MarkerAt(s[i..]) > 0
  }

  /** `replace(/<!--|-->|百度SEO|首行注释规范/g, '')`: one left-to-right pass
      that drops every marker it meets. */
  function RemoveMarkers(s: string): (r: string)
    ensures |r| <= |s|
    decreases |s|
  {
    if s == [] then []
    else
      var k := MarkerAt(s);
      if k > 0 then RemoveMarkers(s[k..]) else [s[0]] + RemoveMarkers(s[1..])
  }

  lemma {:induction false} MarkerShrinks(s: string, i: nat)
    requires i < |s| && MarkerAt(s[i..]) > 0
    ensures |RemoveMarkers(s)| < |s|
    decreases i
  {
    if MarkerAt(s) == 0 {
      assert i > 0;
      assert s[1..][i - 1..] == s[i..];
      MarkerShrinks(s[1..], i - 1);
    }
  }

  lemma {:induction false} NoMarkerKept(s: string)
    requires !HasMarker(s)
    ensures RemoveMarkers(s) == s
    decreases |s|
  {
    if s != [] {
      assert s[0..] == s;
      assert MarkerAt(s) == 0;
      assert !HasMarker(s[1..]) by {
        forall i: nat | i < |s[1..]| ensures MarkerAt(s[1..][i..]) == 0 {
          assert s[1..][i..] == s[i + 1..];
        }
      }
      NoMarkerKept(s[1..]);
    }
  }

  /** The marker pass changes the comment exactly when it contains a marker. */
  lemma RemoveMarkersUnchanged(s: string)
    ensures RemoveMarkers(s) == s <==> !HasMarker(s)
  {
    if HasMarker(s) {
      var i: nat :| i < |s| && MarkerAt(s[i..]) > 0;
      MarkerShrinks(s, i);
    } else {
      NoMarkerKept(s);
    }
  }

  /** `content.match(/<!--[\s\S]*?-->/)`: from the first `<!--` to the first
      `-->` that starts after it. */
  function FirstComment(content: string): (r: Option<string>)
    ensures r.Some? ==> |r.value| >= 7
  {
    var i := IndexOf(content, "<!--", 0);
    if i < 0 then None
    else
      var j := IndexOf(content, "-->", i + 4);
      if j < 0 then None else Some(content[i..j + 3])
  }

  /** The comment is found exactly when some `<!--` is followed by a `-->`,
      and it is the lazy, leftmost match: it begins at the first `<!--` and
      ends with the first `-->` after it. */
  lemma FirstCommentIsLeftmostLazy(content: string)
    ensures FirstComment(content).Some? <==>
            exists i: nat, j: nat | i + 4 <= j :: HasAt(content, "<!--", i) && HasAt(content, "-->", j)
    ensures FirstComment(content).Some? ==> exists i: nat, j: nat | i + 4 <= j ::
              && HasAt(content, "<!--", i) && HasAt(content, "-->", j)
              && FirstComment(content).value == content[i..j + 3]
              && (forall k: nat | k < i :: !HasAt(content, "<!--", k))
              && (forall k: nat | i + 4 <= k < j :: !HasAt(content, "-->", k))
  {
    var i := IndexOf(content, "<!--", 0);
    if i >= 0 {
      var j := IndexOf(content, "-->", i + 4);
      if j < 0 {
        forall a: nat, b: nat | a + 4 <= b && HasAt(content, "<!--", a)
          ensures !HasAt(content, "-->", b)
        {
          assert i <= a;
        }
      }
    }
  }

  /** The items the comment parse reads from the matched comment: markers
      removed, trimmed, split into lines and `|` parts. */
  function CommentItems(comment: string): seq<string> {
    CommentParts(Trim(RemoveMarkers(comment), IsJsSpace))
  }

  /** The record the comment parse leaves, when the document has a comment. */
  function CommentRecord(content: string, loadTime: string, lower: string -> string): Option<Metadata> {
    match FirstComment(content)
    case None => None
    case Some(c) =>
      Some(Absorb(Defaults(loadTime), CommentItems(c), CommentBlock, lower))
  }

  predicate AcceptedTitle(title: string) {
    title != "" && title != PlaceholderTitle
  }

  /** Where the `---` block ends: `content.indexOf('\n---', 3)` when the
      content starts with `---`, otherwise -1. */
  function YamlEnd(content: string): (e: int)
    ensures e == -1 || (3 <= e && e + 4 <= |content|)
  {
    if StartsWith(content, "---") then IndexOf(content, "\n---", 3) else -1
  }

  /** The lines the top-line encoding looks at: the first five at most. */
  function TopLinesOf(content: string): seq<string> {
    var lines := Split(content, {'\n'});
    lines[..if |lines| < 5 then |lines| else 5]
  }

  /** The extraction cascade as one value: the comment's record when its
      title is accepted, else the `---` block's or the top lines' updates on
      top of whatever the comment parse already set. */
  function FrontMatterOf(content: string, loadTime: string, lower: string -> string): Metadata {
    var comment := CommentRecord(content, loadTime, lower);
    var carried := comment.GetOr(Defaults(loadTime));
    if comment.Some? && AcceptedTitle(carried.title) then carried
    else if YamlEnd(content) >= 0 then
      Absorb(carried, Split(content[3..YamlEnd(content)], {'\n'}), YamlBlock, lower)
    else Absorb(carried, TopLinesOf(content), TopLines, lower)
  }

  /** `parseFrontMatter`. */
  method ParseFrontMatter(content: string, loadTime: string, lower: string -> string) returns (r: Metadata)
    ensures r == FrontMatterOf(content, loadTime, lower)
  {
    var lines := Split(content, {'\n'});
    var metadata := Defaults(loadTime);
    var commentMatch := FirstComment(content);
    if commentMatch.Some? {
      var commentContent := Trim(RemoveMarkers(commentMatch.value), IsJsSpace);
      var parsed := ParseCommentMetadata(commentContent, metadata, lower);
      // `parsed` is the working record itself: what it set stays set below.
      metadata := parsed;
      if parsed.title != "" && parsed.title != PlaceholderTitle {
        return parsed;
      }
    }
    if StartsWith(content, "---") {
      var endMarker := IndexOf(content, "\n---", 3);
      if endMarker != -1 {
        r := ParseYamlMetadata(content[3..endMarker], metadata, lower);
        return;
      }
    }
    ghost var carried := metadata;
    var n := if |lines| < 5 then |lines| else 5;
    for i := 0 to n
      invariant metadata == Absorb(carried, lines[..i], TopLines, lower)
    {
      AbsorbPrefix(carried, lines, i, TopLines, lower);
      var line := Trim(lines[i], IsJsSpace);
      if line == [] || line[0] == '#' {
        continue;
      }
      KeyValueStep(line, lower, metadata, true, false);
      var colonIndex := IndexOf(line, ":", 0);
      if colonIndex != -1 {
        var key := lower(Trim(line[..colonIndex], IsJsSpace));
        var value := Trim(line[colonIndex + 1..], IsJsSpace);
        metadata := Assign(metadata, key, value, true);
      }
    }
    assert lines[..n] == TopLinesOf(content);
    return metadata;
  }

  // ---------------------------------------------------------------------
  // Properties of the cascade
  // ---------------------------------------------------------------------

  /** Which branch of the cascade decides the result: a helper for the
      lemmas below. */
  lemma CascadeBranches(content: string, loadTime: string, lower: string -> string)
    ensures var comment := CommentRecord(content, loadTime, lower);
            comment.Some? && AcceptedTitle(comment.value.title) ==>
              FrontMatterOf(content, loadTime, lower) == comment.value
    ensures var comment := CommentRecord(content, loadTime, lower);
            (comment.None? || !AcceptedTitle(comment.value.title)) && YamlEnd(content) >= 0 ==>
              FrontMatterOf(content, loadTime, lower)
              == Absorb(comment.GetOr(Defaults(loadTime)), Split(content[3..YamlEnd(content)], {'\n'}), YamlBlock, lower)
    ensures var comment := CommentRecord(content, loadTime, lower);
            (comment.None? || !AcceptedTitle(comment.value.title)) && YamlEnd(content) < 0 ==>
              FrontMatterOf(content, loadTime, lower)
              == Absorb(comment.GetOr(Defaults(loadTime)), TopLinesOf(content), TopLines, lower)
  {
  }

  /** With no comment, no `---` block and no recognised top line, the
      result is exactly the default record. */
  lemma NoMetadataGivesDefaults(content: string, loadTime: string, lower: string -> string)
    requires FirstComment(content).None?
    requires YamlEnd(content) < 0
    requires forall i | 0 <= i < |TopLinesOf(content)| :: Entry(TopLines, TopLinesOf(content)[i], lower).None?
    ensures FrontMatterOf(content, loadTime, lower) == Defaults(loadTime)
  {
    AbsorbInert(Defaults(loadTime), TopLinesOf(content), TopLines, lower);
  }

  /** A comment whose last title part has an accepted value decides the
      whole result, whatever `---` block or top lines follow. */
  lemma CommentTitleWins(content: string, loadTime: string, lower: string -> string, i: nat)
    requires FirstComment(content).Some?
    requires var parts := CommentItems(FirstComment(content).value);
             && i < |parts| && Assigns(CommentBlock, parts[i], lower, Title)
             && AcceptedTitle(Entry(CommentBlock, parts[i], lower).value.1)
             && forall j | i < j < |parts| :: !Assigns(CommentBlock, parts[j], lower, Title)
    ensures var parts := CommentItems(FirstComment(content).value);
            && FrontMatterOf(content, loadTime, lower) == CommentRecord(content, loadTime, lower).value
            && FrontMatterOf(content, loadTime, lower).title == Entry(CommentBlock, parts[i], lower).value.1
  {
    var parts := CommentItems(FirstComment(content).value);
    AbsorbLastWins(Defaults(loadTime), parts, CommentBlock, lower, Title, i);
  }

  /** A comment with no title part still wins: the record keeps the default
      title, which is neither empty nor the placeholder. */
  lemma UntitledCommentWins(content: string, loadTime: string, lower: string -> string)
    requires FirstComment(content).Some?
    requires var parts := CommentItems(FirstComment(content).value);
             forall j | 0 <= j < |parts| :: !Assigns(CommentBlock, parts[j], lower, Title)
    ensures FrontMatterOf(content, loadTime, lower) == CommentRecord(content, loadTime, lower).value
    ensures FrontMatterOf(content, loadTime, lower).title == DefaultTitle
  {
    var parts := CommentItems(FirstComment(content).value);
    AbsorbUntouched(Defaults(loadTime), parts, CommentBlock, lower, Title);
    assert AcceptedTitle(DefaultTitle) by {
      assert |DefaultTitle| != |PlaceholderTitle|;
    }
    CascadeBranches(content, loadTime, lower);
  }

  /** When the comment is rejected, what it set survives into the `---`
      block's result unless the block sets the same field again. */
  lemma RejectedCommentCarriesOver(content: string, loadTime: string, lower: string -> string, f: Field)
    requires CommentRecord(content, loadTime, lower).Some?
    requires !AcceptedTitle(CommentRecord(content, loadTime, lower).value.title)
    requires YamlEnd(content) >= 0
    requires var block := Split(content[3..YamlEnd(content)], {'\n'});
             forall j | 0 <= j < |block| :: !Assigns(YamlBlock, block[j], lower, f)
    ensures Get(FrontMatterOf(content, loadTime, lower), f) == Get(CommentRecord(content, loadTime, lower).value, f)
  {
    var record := CommentRecord(content, loadTime, lower).value;
    var block := Split(content[3..YamlEnd(content)], {'\n'});
    CascadeBranches(content, loadTime, lower);
    AbsorbUntouched(record, block, YamlBlock, lower, f);
  }

  /** Without an accepted comment, the last assignment of a field in the
      `---` block decides it. */
  lemma YamlLastWins(content: string, loadTime: string, lower: string -> string, f: Field, i: nat)
    requires CommentRecord(content, loadTime, lower).None? || !AcceptedTitle(CommentRecord(content, loadTime, lower).value.title)
    requires YamlEnd(content) >= 0
    requires var block := Split(content[3..YamlEnd(content)], {'\n'});
             && i < |block| && Assigns(YamlBlock, block[i], lower, f)
             && forall j | i < j < |block| :: !Assigns(YamlBlock, block[j], lower, f)
    ensures Get(FrontMatterOf(content, loadTime, lower), f)
            == Entry(YamlBlock, Split(content[3..YamlEnd(content)], {'\n'})[i], lower).value.1
  {
    var carried := CommentRecord(content, loadTime, lower).GetOr(Defaults(loadTime));
    AbsorbLastWins(carried, Split(content[3..YamlEnd(content)], {'\n'}), YamlBlock, lower, f, i);
  }

  /** Without a comment or a `---` block, a field is set by the last of the
      first five lines that names it; a field none of them names keeps its default. */
  lemma TopLinesDecide(content: string, loadTime: string, lower: string -> string, f: Field)
    requires FirstComment(content).None?
    requires YamlEnd(content) < 0
    ensures var top := TopLinesOf(content);
            (forall j | 0 <= j < |top| :: !Assigns(TopLines, top[j], lower, f)) ==>
              Get(FrontMatterOf(content, loadTime, lower), f) == Get(Defaults(loadTime), f)
    ensures var top := TopLinesOf(content);
            forall i | 0 <= i < |top| && Assigns(TopLines, top[i], lower, f)
                       && (forall j | i < j < |top| :: !Assigns(TopLines, top[j], lower, f)) ::
              Get(FrontMatterOf(content, loadTime, lower), f) == Entry(TopLines, top[i], lower).value.1
  {
    var top := TopLinesOf(content);
    if forall j | 0 <= j < |top| :: !Assigns(TopLines, top[j], lower, f) {
      AbsorbUntouched(Defaults(loadTime), top, TopLines, lower, f);
    }
    forall i | 0 <= i < |top| && Assigns(TopLines, top[i], lower, f)
               && (forall j | i < j < |top| :: !Assigns(TopLines, top[j], lower, f))
      ensures Get(FrontMatterOf(content, loadTime, lower), f) == Entry(TopLines, top[i], lower).value.1
    {
      AbsorbLastWins(Defaults(loadTime), top, TopLines, lower, f, i);
    }
  }

  /** `---\n---` opens and closes an empty block: with no comment, the
      result is the default record. */
  lemma EmptyYamlBlockGivesDefaults(rest: string, loadTime: string, lower: string -> string)
    requires FirstComment("---\n---" + rest).None?
    ensures FrontMatterOf("---\n---" + rest, loadTime, lower) == Defaults(loadTime)
  {
    var content := "---\n---" + rest;
    assert HasAt(content, "---", 0);
    assert HasAt(content, "\n---", 3);
    assert YamlEnd(content) == 3;
    assert content[3..3] == "";
    assert Split("", {'\n'}) == [""];
    assert Entry(YamlBlock, "", lower).None?;
    AbsorbInert(Defaults(loadTime), [""], YamlBlock, lower);
  }
}
