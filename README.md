# ZBW article pipeline and site logic in Dafny

ZBW is the static website of a bid agency. Its articles are markdown files.
The site's logic, modelled here:

- A build step reads every article and writes `index.json`. It runs as
  either a Node script (`build-index.js`) or a Python twin
  (`generate_index.py`), each with its own rules for metadata, excerpts
  and order.
- The browser reads SEO metadata and summaries (`js/main.js`).
- The browser searches the article list.
- Two banner carousels run on the page: the one in `js/main.js` and the
  `HomeBanner` class of `js/home-banner.js`.
- A serverless function validates the contact form
  (`netlify/functions/contact.js`).

Each source file is one module:

| module | models |
|---|---|
| `Text` | shared string helpers: JavaScript and Python whitespace classes, trim, split/join, search, whitespace collapsing, lexicographic order, string sort, and two regular expressions used by the metadata parsers |
| `FrontMatter` | `parseFrontMatter` and its helpers in `build-index.js`: the comment → `---` block → top-lines cascade |
| `ContentIndex` | `extractExcerpt` and `buildIndex` in `build-index.js` |
| `PyIndex` | `parse_seo_meta`, `generate_excerpt`, `scan_markdown_files` and `generate_index` in `generate_index.py` |
| `ClientSeo` | `parseSeoMeta`, `generateExcerpt` and `generateBaiduDescription` in `js/main.js` |
| `ClientSearch` | `searchArticles` in `js/main.js` |
| `SlideShow` | `showSlide`, `nextSlide` and `prevSlide` of `initBanner` in `js/main.js` |
| `ContactForm` | `validateFormData` and the handler's decisions in `netlify/functions/contact.js` |
| `HomeBanner` | class `HomeBanner` in `js/home-banner.js` |

The model keeps the form of the source:

- The parsers that mutate one record in nested loops are methods.
  - `ParseCommentMetadata`, `ParseYamlMetadata`, `ParseFrontMatter`, `InferCategory` and `ParseSeoMeta` (Python).
  - Each is proved equal to a fold or a function over the input.
- The index builders are methods with loops: `BuildIndex` and `GenerateIndex`.
  - Each is proved equal to a recursive collection function.
  - The properties are proved about that function.
- `validateFormData` is a method.
- The carousels are classes over arrays of `active` flags.
- The string expressions are functions: excerpts, `parseSeoMeta` (browser), and the search filter.

Library calls whose behaviour lies outside the source become function parameters:

- lower-casing (`toLowerCase`, `str.lower`);
- the DOM round trip `stripHtml`;
- the regex markdown-stripping stages of `extractExcerpt`;
- reading a file, and a file's date;
- clocks.

Where the code and its documentation disagree, the model follows the code:

- In `parseFrontMatter`, the working record starts with the non-empty default title (`build-index.js:27`). So a document with any `<!-- -->` comment anywhere returns from the comment branch unless the comment sets an empty or placeholder title. This holds even when the comment has no title, and even when a `---` block comes first (`FrontMatter.UntitledCommentWins`).
- The build-time extractor never caps the number of keywords. Only the browser's `parseSeoMeta` does.
- In the browser's description fallback, the lines are joined with spaces before `^#+\s*` is removed in multiline mode. So only the first line's heading marks go, plus any after a carriage return left inside a line (`ClientSeo.JoinedHeadingsKeepLaterMarks`).
- `HomeBanner.destroy` removes listeners that were never added. Its listeners are separate closures, not `this.prev` and `this.next`, so every listener stays bound (`HomeBanner.HomeBanner.Destroy`).
- `generate_index` sets the excerpt as the description on the metadata only. The written entry has no description field.

## Model

| member | source | states |
|---|---|---|
| Text.CommentGroupIsMatch | generate_index.py:52 | the group taken for `^<!--\s*(.+?)\s*-->$` exists exactly when some split of the inside matches, and is then the split backtracking tries first (longest leading `\s*`, shortest group) |
| Text.FieldAfter | generate_index.py:57-69 | `key:\s*([^\|]+)` finds nothing exactly when no `key:` is followed by a character other than `\|` |
| Text.FieldAfterFirst | generate_index.py:57-69 | when it finds something, the capture is the text after the first such `key:` up to the next `\|`, trimmed |
| Text.SortStrings | build-index.js:193 | the default sort: ascending by code unit, and a permutation of its input |
| FrontMatter.StripQuotes | build-index.js:133 | removes one leading and one trailing quote character (`'` or `"`) where there is one, and nothing else; a value of two or more characters loses each independently, and a lone quote character leaves the empty string |
| FrontMatter.Assign | build-index.js:135-139 | a recognised key (English, or its Chinese alias in comment and top-line form) sets exactly that field; any other key leaves the record unchanged |
| FrontMatter.Set | build-index.js:135-139 | setting a field changes that field and no other |
| FrontMatter.AbsorbLastWins | build-index.js:122-142 | of several parts naming a field, the last one decides it |
| FrontMatter.AbsorbUntouched | build-index.js:122-142 | a field that no part names keeps its incoming value |
| FrontMatter.AbsorbInert | build-index.js:93-108 | lines without a recognised `key:` change nothing |
| FrontMatter.AbsorbAppend | build-index.js:122-142 | parsing two runs of parts in sequence is parsing their concatenation, which is why one record threads through the whole comment |
| FrontMatter.ParseCommentMetadata | build-index.js:119-145 | the nested loop over lines and `\|`-separated parts yields the fold of the key/value assignments over the parts, in order |
| FrontMatter.ParseYamlMetadata | build-index.js:90-111 | the loop over the block's lines yields the fold of the English-key assignments over the lines |
| FrontMatter.RemoveMarkersUnchanged | build-index.js:48-50 | removing `<!--`, `-->`, `百度SEO` and `首行注释规范` changes the text exactly when one of them occurs |
| FrontMatter.MarkerShrinks | build-index.js:48-50 | any marker occurrence makes the text strictly shorter |
| FrontMatter.FirstCommentIsLeftmostLazy | build-index.js:46 | `<!--[\s\S]*?-->` matches exactly when some `<!--` is followed by a `-->`, and then spans the leftmost such `<!--` to the first `-->` after it |
| FrontMatter.YamlEnd | build-index.js:58-60 | the end of a `---` block is absent, or a `\n---` at offset 3 or more that leaves room for itself |
| FrontMatter.ParseFrontMatter | build-index.js:41-85 | the method returns the cascade's record (comment, then `---` block, then top lines) |
| FrontMatter.NoMetadataGivesDefaults | build-index.js:41-85 | with no comment, no block and no recognised top line the result is exactly the default record |
| FrontMatter.CommentTitleWins | build-index.js:46-54 | a comment whose last title part is accepted decides the whole result, with that title |
| FrontMatter.UntitledCommentWins | build-index.js:51-53 | a comment with no title part still decides the result, keeping the default title |
| FrontMatter.RejectedCommentCarriesOver | build-index.js:51-62 | fields a rejected comment set survive into the `---` block's result unless the block sets them again |
| FrontMatter.YamlLastWins | build-index.js:57-64 | without an accepted comment, the last block line naming a field decides it |
| FrontMatter.TopLinesDecide | build-index.js:66-82 | without comment or block, the last of the first five lines naming a field decides it, and an unnamed field keeps its default |
| FrontMatter.EmptyYamlBlockGivesDefaults | build-index.js:57-62 | `---\n---` is an empty block: with no comment the result is the default record |
| ContentIndex.ExtractExcerpt | build-index.js:169-174 | at most `maxLength + 3` characters: the cleaned text when it fits, else its first `maxLength` characters and `...` |
| ContentIndex.MarkdownFiles | build-index.js:192 | keeps exactly the names ending in `.md` other than `README.md`, each as often as listed |
| ContentIndex.Listing | build-index.js:191-193 | the files read are the kept names, sorted ascending, as a permutation |
| ContentIndex.ListingCounts | build-index.js:191-193 | each listed name occurs as often as in the directory, every other name not at all |
| ContentIndex.CollectEntries | build-index.js:199-222 | collecting succeeds exactly when every file can be read, and then holds one entry per file in order, built from its metadata and excerpt |
| ContentIndex.CollectStopsAt | build-index.js:201 | once one file cannot be read, the run fails |
| ContentIndex.BuildIndex | build-index.js:180-239 | a missing directory or an unreadable file writes nothing; otherwise the index is version `1.0`, the build time, the collected entries and their count |
| ContentIndex.WrittenIndex | build-index.js:225-230 | a written index has `total` equal to its number of entries and to the number of listed files, and entry `i` is built from the `i`-th sorted file |
| PyIndex.CategoryIsFirstMatch | generate_index.py:72-80 | the category is the first table row with a keyword in the lower-cased file name, and `其他` exactly when no row has one |
| PyIndex.AnnouncementWinsOverPolicy | generate_index.py:27-32 | table order decides: a name containing both `政策` and `公告` is filed under `中标公告` |
| PyIndex.InferCategory | generate_index.py:72-80 | the loop with `break` yields the first-match category |
| PyIndex.SeoMetaOf | generate_index.py:35-82 | the category always comes from the file name, never from the comment |
| PyIndex.ParseSeoMeta | generate_index.py:35-82 | the method yields the metadata function's record |
| PyIndex.DefaultTitleIsStem | generate_index.py:45 | the default title of `stem.md` is `stem` when the stem holds no `.md` |
| PyIndex.NoCommentKeepsDefaults | generate_index.py:40-49 | without a first-line comment: stem title, default keywords, empty description |
| PyIndex.CommentTitleOverrides | generate_index.py:52-59 | a usable `title:` in the first-line comment gives the title, uncapped |
| PyIndex.Without | generate_index.py:123 | deleting the markup characters leaves none of them |
| PyIndex.DropSeoLineCuts | generate_index.py:117-120 | a first line starting with `<!--` is dropped, and the rest kept as it was |
| PyIndex.GenerateExcerpt | generate_index.py:112-129 | at most `max_length + 3` characters: the plain text when it fits, else its first `max_length` characters and `...` |
| PyIndex.ExcerptShape | generate_index.py:123-124 | the plain text has no markup character and no double or non-blank whitespace, is stripped, and keeps every other character in order |
| PyIndex.InsertByDatePermutes | generate_index.py:201 | inserting adds exactly the new article |
| PyIndex.InsertByDateSorted | generate_index.py:201 | inserting into a newest-first list keeps it newest first |
| PyIndex.InsertByDateStable | generate_index.py:201 | the new article goes after every article of the same date |
| PyIndex.SortNewestFirst | generate_index.py:201 | the sort orders by date, descending, as a permutation |
| PyIndex.SortNewestFirstStable | generate_index.py:201 | articles of equal date keep their scan order |
| PyIndex.ScanMarkdownFiles | generate_index.py:132-145 | the scan yields exactly the `.md` names when the directory exists, none otherwise |
| PyIndex.ProcessedEntries | generate_index.py:163-198 | exactly the readable files get an entry, each built from its own content; unreadable ones are skipped (file dates are taken as always available) |
| PyIndex.GenerateIndex | generate_index.py:148-209 | no `.md` file writes nothing; otherwise the index holds the processed entries, sorted newest first, and their count |
| PyIndex.WrittenIndex | generate_index.py:201-209 | the written list is newest first, a permutation of the processed entries, stable on equal dates, and holds every readable `.md` file (file dates are taken as always available) |
| ClientSeo.Summarize | js/main.js:101-117 | `generateExcerpt` and `generateBaiduDescription`: at most `maxLength + 3` characters, and the cleaned text itself when it fits; `Truncate` and `SummaryCutLength` give the cut case |
| ClientSeo.Truncate | js/main.js:101-117 | the cleaned text itself when it fits; else a prefix of at most `maxLength` characters not ending in whitespace, with only whitespace cut from the first `maxLength` characters, plus `...` |
| ClientSeo.SummaryCutLength | js/main.js:104-106 | a cut summary is `maxLength + 2` or `maxLength + 3` characters long |
| ClientSeo.StripMdExtension | js/main.js:125 | either the name unchanged or the name minus its last three characters |
| ClientSeo.StripMdExtensionAnyCase | js/main.js:125 | `.md`, `.MD`, `.Md` and `.mD` are all removed |
| ClientSeo.StripMdExtensionKeepsOthers | js/main.js:125 | a name not ending in `.md`, in any letter case, is kept whole |
| ClientSeo.Cap | js/main.js:146 | a prefix of at most `n` characters, the whole string when it fits |
| ClientSeo.TokensCommaFree | js/main.js:155 | no keyword token holds an ASCII or full-width comma |
| ClientSeo.CappedKeywordsReadBack | js/main.js:155-158 | more than five keywords are cut to the first five, and the result splits on `,` into exactly those five |
| ClientSeo.FewKeywordsKept | js/main.js:151-159 | five keywords or fewer: the field is kept exactly as written |
| ClientSeo.StripHeadingMarks | js/main.js:176 | never lengthens the text |
| ClientSeo.NoHeadingMarksKept | js/main.js:176 | text without `#` is left alone |
| ClientSeo.JoinedHeadingsKeepLaterMarks | js/main.js:175-176 | for any title and subheading without line terminators, joining `# title` and `## sub` with a space and stripping gives `title ## sub`: only the first heading loses its marks |
| ClientSeo.ParseSeoMeta | js/main.js:123-181 | a description is never longer than 120 characters, whether taken from the comment or from the summary; the lemmas below give each field |
| ClientSeo.CommentTitleCapped | js/main.js:142-148 | a comment title is at most 30 characters, a prefix of the field, and the whole field when it fits |
| ClientSeo.CommentDescriptionCapped | js/main.js:163-169 | a non-empty comment description is at most 120 characters, a prefix of the field, and the whole field when it fits |
| ClientSeo.CommentKeywordsCapped | js/main.js:150-160 | a comment listing more than five keywords yields exactly its first five |
| ClientSeo.DescriptionFallback | js/main.js:172-178 | an absent or empty description becomes the 100-character summary of the remaining lines, at most 103 characters |
| ClientSeo.NoCommentDefaults | js/main.js:123-138 | without a first-line comment: file-name title, default keywords, summary description |
| ClientSearch.SearchArticles | js/main.js:468-477 | a null or blank query returns the list itself; otherwise only matching input articles are returned |
| ClientSearch.FilterKeepsMatches | js/main.js:471-476 | an article is in the result exactly when it is in the input and its title or excerpt contains the lower-cased query |
| ClientSearch.FilterCounts | js/main.js:471-476 | each matching article occurs as often as in the input, any other not at all |
| ClientSearch.FilterIsSubsequence | js/main.js:471-476 | the result is an order-preserving sublist of the input |
| ClientSearch.FilterAppend | js/main.js:471-476 | filtering distributes over concatenation, so kept articles keep their relative order |
| ClientSearch.FilterExtremes | js/main.js:471-476 | a query every article matches keeps all, one none matches keeps none |
| SlideShow.NextIndex | js/main.js:595-598 | the next slide is in range, one on, and the first after the last |
| SlideShow.PrevIndex | js/main.js:601-604 | the previous slide is in range, one back, and the last before the first |
| SlideShow.StepsUndo | js/main.js:595-604 | `prevSlide` undoes `nextSlide` and the other way round |
| SlideShow.ForwardWraps | js/main.js:595-598 | up to `n` forward steps go round at most once |
| SlideShow.FullCycle | js/main.js:595-598 | `n` forward steps come back to the start, and no fewer do |
| SlideShow.Carousel.ShowSlide | js/main.js:584-592 | exactly the slide and dot at the index are active and `bannerIndex` is the index |
| SlideShow.Carousel.NextSlide | js/main.js:595-598 | `bannerIndex` moves to the next slide, which alone is shown |
| SlideShow.Carousel.PrevSlide | js/main.js:601-604 | `bannerIndex` moves to the previous slide, which alone is shown |
| ContactForm.EmailCheckIsPattern | netlify/functions/contact.js:38 | the e-mail check accepts exactly the strings of `^[^\s@]+@[^\s@]+\.[^\s@]+$` |
| ContactForm.EmailUntrimmed | netlify/functions/contact.js:38 | an accepted e-mail has no whitespace at either end |
| ContactForm.ValidateFormData | netlify/functions/contact.js:26-48 | the loop over the required fields, then the e-mail and phone checks, yields the errors in that order |
| ContactForm.RequiredErrorsOfFields | netlify/functions/contact.js:30-35 | one required-field error per absent or blank field among name, email, message, in that order |
| ContactForm.NoErrorsIff | netlify/functions/contact.js:26-48 | no errors exactly when the three required fields are filled, the e-mail passes, and a given phone passes |
| ContactForm.ErrorCount | netlify/functions/contact.js:26-48 | at most five errors |
| ContactForm.BlankEmailTwice | netlify/functions/contact.js:31-40 | a whitespace-only e-mail is reported both as missing and as malformed |
| ContactForm.CleanedOf | netlify/functions/contact.js:139-146 | name, e-mail and message are the trimmed submissions; a given phone or company is trimmed, an absent one is empty; the record is stamped with the handling time |
| ContactForm.Handler | netlify/functions/contact.js:88-185 | a method other than POST gives 405 without validation; errors give 400 with exactly those errors; otherwise 200, after building the cleaned record that the optional save would store |
| ContactForm.StatusAgreesWithBody | netlify/functions/contact.js:90-185 | the status is 200, 400 or 405; `success` holds exactly at 200; a 400 carries at least one error; every answer is JSON, only the 405 has `Allow: POST`, only the 200 has the CORS headers, and the 200's `data` holds only the handling time |
| ContactForm.AcceptedRecord | netlify/functions/contact.js:139-144 | an accepted form's name and message are non-empty with no surrounding whitespace |
| ContactForm.AcceptedContact | netlify/functions/contact.js:139-142 | an accepted form's e-mail is kept exactly as submitted and well-formed, and its phone holds only phone characters |
| HomeBanner.Clamp | js/home-banner.js:111-116 | the target is in range: kept when in range, the last slide below 0, the first at or past the end |
| HomeBanner.ClampIsNotWrap | js/home-banner.js:112-116 | for every slide count of two or more, two back from the first slide gives the last (wrapping would give the last but one) and two past the end gives the first (wrapping would give the second) |
| HomeBanner.StepsAgreeWithSlideShow | js/home-banner.js:134-140 | one step forward or back lands where the `js/main.js` carousel's modular step does |
| HomeBanner.SetActive | js/home-banner.js:119-131 | only the named element's `active` flag changes, and only when it exists |
| HomeBanner.MoveKeepsOneActive | js/home-banner.js:118-131 | moving `active` from the old index to the new keeps exactly one element active |
| HomeBanner.MoveTouchesTwo | js/home-banner.js:118-131 | moving changes no element except the old and new index |
| HomeBanner.HomeBanner.AtMostOneTimer | js/home-banner.js:142-157 | at most one autoplay interval is ever live, and none exactly when none is stored |
| HomeBanner.HomeBanner.constructor | js/home-banner.js:7-19 | index 0, interval 5000, and `init` run: without slides nothing is bound or started, otherwise one timer runs |
| HomeBanner.HomeBanner.Init | js/home-banner.js:21-34 | without slides nothing changes; otherwise the listeners are bound and exactly one timer runs |
| HomeBanner.HomeBanner.GoTo | js/home-banner.js:111-132 | the index becomes the clamped target, `active` moves from the old slide and dot to the new, and "exactly one active" is kept |
| HomeBanner.HomeBanner.Next | js/home-banner.js:134-136 | one slide on, the first after the last; `active` moves from the old slide and dot to the new, and "exactly one active" is kept |
| HomeBanner.HomeBanner.Prev | js/home-banner.js:138-140 | one slide back, the last before the first; `active` moves from the old slide and dot to the new, and "exactly one active" is kept |
| HomeBanner.HomeBanner.StartAutoplay | js/home-banner.js:142-150 | the old interval is cleared before a new one starts, so the new one is the only live one |
| HomeBanner.HomeBanner.PauseAutoplay | js/home-banner.js:152-157 | no interval is stored or live afterwards, and with none running nothing changes |
| HomeBanner.HomeBanner.ResetAutoplay | js/home-banner.js:159-161 | the same as starting autoplay |
| HomeBanner.HomeBanner.Destroy | js/home-banner.js:163-167 | autoplay stops; the listeners stay bound |
| HomeBanner.HomeBanner.AutoplayTick | js/home-banner.js:147-149 | each tick of the interval steps to the next slide, moving `active` with it and keeping "exactly one active" |
| HomeBanner.HomeBanner.ClickPrev | js/home-banner.js:38-41 | the previous button steps back, moving `active` and keeping "exactly one active", and restarts autoplay as the only live interval |
| HomeBanner.HomeBanner.ClickNext | js/home-banner.js:44-47 | the next button steps forward, moving `active` and keeping "exactly one active", and restarts autoplay as the only live interval |
| HomeBanner.HomeBanner.ClickDot | js/home-banner.js:50-55 | a dot goes to its slide, clamped, moving `active` and keeping "exactly one active", and restarts autoplay as the only live interval |
| HomeBanner.HomeBanner.MouseEnter | js/home-banner.js:60-62 | hovering pauses autoplay |
| HomeBanner.HomeBanner.MouseLeave | js/home-banner.js:64-66 | leaving restarts autoplay |
| HomeBanner.HomeBanner.KeyDown | js/home-banner.js:70-78 | the arrow keys step back and forward, moving `active` and restarting autoplay as the only live interval; any other key changes no index, flag or timer; "exactly one active" is kept |
| HomeBanner.HomeBanner.Swipe | js/home-banner.js:96-108 | a travel of more than 50 steps back (rightward) or forward (leftward), moving `active` and restarting autoplay as the only live interval; a shorter one changes no index, flag or timer; "exactly one active" is kept |

## Left out

- File system, process and network I/O are parameters.
  - Directory listing is a sequence of names. File reading is a function that may fail. File dates are a function.
  - Writing `index.json` is the returned record. The console output is not modelled.
  - The `git log` and `os.path.getmtime` fallbacks of `get_file_mtime` (`generate_index.py:85-109`) are behind the date function.
- PyIndex.ProcessedEntries, PyIndex.GenerateIndex and PyIndex.WrittenIndex: the date function is total, so every readable file gets an entry. In the source `get_file_mtime` runs inside the per-file `try` (`generate_index.py:180-181`) and can still raise: `subprocess.run` may raise a `PermissionError`, which the handler at line 101 does not catch, and `fromtimestamp` may raise an `OverflowError`, which neither handler catches. Such a file is skipped (`generate_index.py:196-198`); the model does not skip it.
- The order of `Path.glob` is the file system's. It is modelled as the order of the given names.
- Clocks are string parameters: `new Date().toISOString()`, `datetime.now()` and the constructor's load time.
- Lower-casing (`toLowerCase`, `str.lower`) is an opaque parameter. Its Unicode case mapping is not modelled.
- `stripHtml` in `js/main.js` is an opaque parameter because it is a DOM round trip.
- ContentIndex.ExtractExcerpt: the thirteen chained `replace` stages before the cut (`build-index.js:153-166`) are one opaque parameter, `tidy`. Their lazy and greedy regular expressions are not modelled. The final `trim` (`build-index.js:167`) is modelled.
- Strings are sequences of characters, one `char` per UTF-16 code unit for the JavaScript scripts and per code point for the Python one; the two agree only on text in the Basic Multilingual Plane. The model reads every string as BMP text, so the length caps (30, 100, 120, 150, 200) and the code-unit order of `.sort()` (`build-index.js:193`, `Text.SortStrings`) are exact only there: outside it a character such as an emoji counts as two units in JavaScript and sorts below `（` (U+FF08) by code unit, though above it by code point.
- `generate_index`'s count of articles per category is not modelled; it is only printed.
- The contact handler's body decoding (JSON or URL-encoded) is taken as already done: the body is a map from field names to strings.
  - Non-string JSON values are not modelled, and neither is the 500 response they or a `null` body would cause.
  - Saving submissions to a file and the e-mail notice are not modelled, because they are environment-dependent side effects. The cleaned record, which only the save uses, is kept in the 200 answer of the model.
  - The human-readable `message` texts of the response bodies are not modelled; only `success`, `errors` and `data` are.
- The autoplay, hover and touch handling of `initBanner` in `js/main.js` is not modelled, because of timers and the DOM. Only the slide index logic is modelled.
- Touch coordinates are integers here; the source's are floating-point pixels.
- HomeBanner.HomeBanner.GoTo requires at least one slide. With none, the source throws on `this.slides[...]`; `init` never binds the listeners in that case.
- HomeBanner.HomeBanner.BindEvents: one `eventsBound` flag stands for all the listeners, so the model assumes the page has the previous and next buttons and `#homeBanner`. In the source the button listeners exist only when `bannerPrev` and `bannerNext` exist (`js/home-banner.js:38`, `:44`), and the hover and touch listeners only when `#homeBanner` does (`:59`, `:86`); only `keydown` is always bound.
- HomeBanner.HomeBanner.Swipe and the other listener methods require bound events. They stand for the registered callbacks, which exist only after `init`.
- The `active` flags start as the page markup sets them (constructor arguments). "Exactly one active" is therefore proved to be kept (`ShowsCurrent`), not to hold from the start.
