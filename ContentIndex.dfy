/** The build-time index generator of build-index.js: list the `.md` files
    of the content directory in sorted order, extract each one's metadata
    and excerpt, and write one index record. */
module ContentIndex {
  import opened Text
  import opened FrontMatter

  /** The excerpt length `extractExcerpt` uses when called without one. */
  const ExcerptLength: nat := 200

  /** `extractExcerpt`: the text the markdown-stripping stages (`tidy`)
      leave, trimmed, cut to `maxLength` characters with `...` appended
      when it is longer. */
  function ExtractExcerpt(content: string, maxLength: nat, tidy: string -> string): (r: string)
    ensures var text := Trim(tidy(content), IsJsSpace);
            && |r| <= maxLength + 3
            && (|text| <= maxLength ==> r == text)
            && (|text| > maxLength ==> |r| == maxLength + 3 && r[..maxLength] == text[..maxLength] && EndsWith(r, "..."))
  {
    var text := Trim(tidy(content), IsJsSpace);
    if |text| > maxLength then text[..maxLength] + "..." else text
  }

  datatype Article = Article(
    filename: string,
    title: string,
    excerpt: string,
    description: string,
    keywords: string,
    date: string,
    category: string)

  /** The record written as `index.json`. */
  datatype ArticleIndex = ArticleIndex(version: string, lastUpdated: string, total: nat, articles: seq<Article>)

  predicate IsListed(name: string) {
    EndsWith(name, ".md") && name != "README.md"
  }

  /** The directory entries the filter keeps, in listing order. */
  function MarkdownFiles(names: seq<string>): (r: seq<string>)
    ensures |r| <= |names|
    ensures forall n :: n in r <==> n in names && IsListed(n)
    ensures forall n | IsListed(n) :: multiset(r)[n] == multiset(names)[n]
    decreases |names|
  {
    if names == [] then []
    else
      var rest := MarkdownFiles(names[..|names| - 1]);
      var last := names[|names| - 1];
      assert names == names[..|names| - 1] + [last];
      if IsListed(last) then rest + [last] else rest
  }

  /** The files `buildIndex` reads, in order: the kept entries, sorted. */
  function Listing(names: seq<string>): (r: seq<string>)
    ensures SortedAsc(r)
    ensures multiset(r) == multiset(MarkdownFiles(names))
    ensures forall n :: n in r <==> n in names && IsListed(n)
  {
    var r := SortStrings(MarkdownFiles(names));
    assert forall n :: n in r <==> n in multiset(r);
    r
  }

  /** Each listed name occurs in the listing exactly as often as in the
      directory; every other name not at all. */
  lemma ListingCounts(names: seq<string>, n: string)
    ensures multiset(Listing(names))[n] == if IsListed(n) then multiset(names)[n] else 0
  {
    if !IsListed(n) {
      assert n !in Listing(names);
    }
  }

  /** The index entry for one file, from its metadata and excerpt. */
  function ArticleOf(file: string, m: Metadata, excerpt: string): Article {
    Article(file, m.title, excerpt, m.description, m.keywords, m.date, m.category)
  }

  /** The entry `buildIndex` writes for a file with text `content`. */
  function EntryFor(file: string, content: string, loadTime: string, lower: string -> string, tidy: string -> string): Article {
    ArticleOf(file, FrontMatterOf(content, loadTime, lower), ExtractExcerpt(content, ExcerptLength, tidy))
  }

  /** `EntryFor` with the run's load time, lower-casing and excerpt
      stages fixed. */
  function Entries(loadTime: string, lower: string -> string, tidy: string -> string): (string, string) -> Article {
    (file, content) => EntryFor(file, content, loadTime, lower, tidy)
  }

  /** The entries `entry` makes for `files` in order, or `None` when
      reading one of them fails. */
  function Collect(files: seq<string>, read: string -> Option<string>, entry: (string, string) -> Article): Option<seq<Article>>
    decreases |files|
  {
    if files == [] then Some([])
    else
      var last := files[|files| - 1];
      match Collect(files[..|files| - 1], read, entry)
      case None => None
      case Some(done) =>
        match read(last)
        case None => None
        case Some(content) => Some(done + [entry(last, content)])
  }

  /** Collecting succeeds exactly when every file can be read, and then
      holds one entry per file, in the files' order. */
  lemma {:induction false} CollectEntries(files: seq<string>, read: string -> Option<string>, entry: (string, string) -> Article)
    ensures var r := Collect(files, read, entry);
            r.Some? <==> forall f | f in files :: read(f).Some?
    ensures var r := Collect(files, read, entry);
            r.Some? ==> |r.value| == |files|
                        && forall i | 0 <= i < |files| :: r.value[i] == entry(files[i], read(files[i]).value)
    decreases |files|
  {
    if files != [] {
      var init := files[..|files| - 1];
      var last := files[|files| - 1];
      CollectEntries(init, read, entry);
      assert forall i | 0 <= i < |init| :: init[i] == files[i];
      var r := Collect(files, read, entry);
      if Collect(init, read, entry).None? {
        var f :| f in init && read(f).None?;
        assert f in files;
      } else if read(last).None? {
        assert last in files;
      } else {
        var done := Collect(init, read, entry).value;
        assert r.value == done + [entry(last, read(last).value)];
        forall i | 0 <= i < |files|
          ensures r.value[i] == entry(files[i], read(files[i]).value)
        {
          if i < |init| {
            assert r.value[i] == done[i] && files[i] == init[i];
          }
        }
        forall f | f in files ensures read(f).Some? {
          var j :| 0 <= j < |files| && files[j] == f;
          if j < |init| {
            assert init[j] == f;
          }
        }
      }
    }
  }

  /** `buildIndex`.  The directory is `names`; `read` gives a file's text
      or `None` where reading it throws, which ends the run before anything
      is written.  The result is the index written, if any. */
  method BuildIndex(
    dirExists: bool, names: seq<string>, read: string -> Option<string>,
    loadTime: string, buildTime: string, lower: string -> string, tidy: string -> string)
    returns (written: Option<ArticleIndex>)
    ensures !dirExists ==> written.None?
    ensures dirExists ==>
              match Collect(Listing(names), read, Entries(loadTime, lower, tidy))
              case None => written.None?
              case Some(articles) => written == Some(ArticleIndex("1.0", buildTime, |articles|, articles))
  {
    if !dirExists {
      return None;
    }
    var files := Listing(names);
    var articles: seq<Article> := [];
    for k := 0 to |files|
      invariant Collect(files[..k], read, Entries(loadTime, lower, tidy)) == Some(articles)
    {
      CollectStep(files, k, read, Entries(loadTime, lower, tidy));
      var file := files[k];
      var content := read(file);
      if content.None? {
        CollectStopsAt(files, read, Entries(loadTime, lower, tidy), k + 1);
        return None;
      }
      var metadata := ParseFrontMatter(content.value, loadTime, lower);
      var excerpt := ExtractExcerpt(content.value, ExcerptLength, tidy);
      var article := Article(file, metadata.title, excerpt, metadata.description, metadata.keywords, metadata.date, metadata.category);
      assert article == Entries(loadTime, lower, tidy)(file, content.value);
      articles := articles + [article];
    }
    assert files[..|files|] == files;
    return Some(ArticleIndex("1.0", buildTime, |articles|, articles));
  }

  /** Collecting one more file either fails or appends its entry. */
  lemma CollectStep(files: seq<string>, k: nat, read: string -> Option<string>, entry: (string, string) -> Article)
    requires k < |files|
    ensures Collect(files[..k + 1], read, entry) ==
      match Collect(files[..k], read, entry)
      case None => None
      case Some(done) =>
        match read(files[k])
        case None => None
        case Some(content) => Some(done + [entry(files[k], content)])
  {
    assert files[..k + 1][..k] == files[..k];
  }

  /** Once a prefix fails, the whole list fails. */
  lemma {:induction false} CollectStopsAt(files: seq<string>, read: string -> Option<string>, entry: (string, string) -> Article, k: nat)
    requires k <= |files|
    requires Collect(files[..k], read, entry).None?
    ensures Collect(files, read, entry).None?
    decreases |files| - k
  {
    if k < |files| {
      assert files[..k + 1][..k] == files[..k];
      CollectStopsAt(files, read, entry, k + 1);
    } else {
      assert files[..k] == files;
    }
  }

  /** What a written index holds: version `1.0`, the build time, one entry
      per listed file in sorted order, and a total equal to their number. */
  lemma WrittenIndex(names: seq<string>, read: string -> Option<string>, loadTime: string, buildTime: string, lower: string -> string, tidy: string -> string)
    requires forall f | f in Listing(names) :: read(f).Some?
    ensures var r := Collect(Listing(names), read, Entries(loadTime, lower, tidy));
            && r.Some?
            && var index := ArticleIndex("1.0", buildTime, |r.value|, r.value);
               && index.total == |index.articles| == |Listing(names)|
               && forall i | 0 <= i < |index.articles| ::
                    && index.articles[i] == EntryFor(Listing(names)[i], read(Listing(names)[i]).value, loadTime, lower, tidy)
                    && IsListed(index.articles[i].filename)
  {
    CollectEntries(Listing(names), read, Entries(loadTime, lower, tidy));
    var files := Listing(names);
    forall i | 0 <= i < |files| ensures IsListed(files[i]) {
      assert files[i] in files;
    }
  }
}
