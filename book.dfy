/** How `scripts/generate_pdf.py` assembles the book's HTML: the chapter
    manifest, chapter loading, the cover, copyright and table-of-contents
    fragments, and the final document. The chapter directory is a map from
    file name to contents (a name is present exactly when the file exists),
    and the markdown library is the function `markdown`, of which nothing
    is assumed. */
module Book {
  import opened Text
  import ImageLinks
  import Dates

  /** The manifest: the order in which chapters are loaded and printed. */
  const Chapters: seq<string> := [
    "part1-foundation.md",
    "part2-prompt-engineering.md",
    "part3-function-calling.md",
    "part4-agentic-patterns.md",
    "part5-mcp.md"
  ]

  /** Display titles of the table of contents, by chapter file. */
  const PartTitles: map<string, string> := map[
    "part1-foundation.md" := "Part 1: Spring AI 입문",
    "part2-prompt-engineering.md" := "Part 2: 프롬프트 엔지니어링",
    "part3-function-calling.md" := "Part 3: Function Calling과 도구 통합",
    "part4-agentic-patterns.md" := "Part 4: Agentic Patterns",
    "part5-mcp.md" := "Part 5: Model Context Protocol (MCP)"
  ]

  datatype Metadata = Metadata(
    title: string, subtitle: string, author: string,
    publisher: string, year: string, version: string)

  const BookMetadata: Metadata := Metadata(
    "바로 써먹는 Spring AI", "실전 AI 애플리케이션 개발 가이드", "황민호(Robin)",
    "RevFactory", "2026", "최신 판")

  /** The script's module-level configuration: the chapter manifest, the
      TOC's part titles and the book metadata. */
  datatype Config = Config(manifest: seq<string>, titles: map<string, string>, meta: Metadata)

  /** The configuration the script ships with. */
  const SpringAiBook: Config := Config(Chapters, PartTitles, BookMetadata)

  /** A loaded chapter: its file name, which is also its HTML id, and its
      wrapped HTML. */
  datatype Chapter = Chapter(file: string, html: string)

  predicate NoDuplicates(s: seq<string>)
  {
    forall i, j :: 0 <= i < j < |s| ==> s[i] != s[j]
  }

  function FilesOf(chapters: seq<Chapter>): seq<string>
  {
    seq(|chapters|, k requires 0 <= k < |chapters| => chapters[k].file)
  }

  function HtmlsOf(chapters: seq<Chapter>): seq<string>
  {
    seq(|chapters|, k requires 0 <= k < |chapters| => chapters[k].html)
  }

  // ---------------------------------------------------------------------
  // Conversion of one chapter

  /** `convert_markdown_to_html`: the image-link rewrite, then the library. */
  function ConvertMarkdownToHtml(md: string, imagesUri: string, markdown: string -> string): string
  {
    markdown(ImageLinks.RewriteImageLinks(md, imagesUri))
  }

  /** Whichever relative spelling a chapter uses for an image, the markdown
      library is handed the same text, so the HTML is the same. */
  lemma ConvertIgnoresSpelling(before: string, after: string, imagesUri: string, markdown: string -> string)
    requires ImageLinks.IsFileUri(imagesUri)
    ensures ConvertMarkdownToHtml(before + ImageLinks.ParentMarker + after, imagesUri, markdown)
         == ConvertMarkdownToHtml(before + ImageLinks.SiblingMarker + after, imagesUri, markdown)
  {
    ImageLinks.BothSpellingsAgree(before, after, imagesUri);
  }

  // ---------------------------------------------------------------------
  // Chapter loading

  function ChapterOpen(file: string): string
  {
    "<div class=\"chapter\" id=\"" + file + "\">"
  }

  /** The container a converted chapter body is wrapped in. */
  function ChapterDiv(file: string, body: string): string
  {
    ChapterOpen(file) + body + "</div>"
  }

  function LoadOne(file: string, files: map<string, string>, imagesUri: string,
                   markdown: string -> string): Chapter
    requires file in files
  {
    Chapter(file, ChapterDiv(file, ConvertMarkdownToHtml(files[file], imagesUri, markdown)))
  }

  /** What `load_chapters` returns, read from the end of the manifest. */
  function Loaded(manifest: seq<string>, files: map<string, string>, imagesUri: string,
                  markdown: string -> string): seq<Chapter>
    decreases |manifest|
  {
    if manifest == [] then []
    else
      var init := Loaded(manifest[..|manifest| - 1], files, imagesUri, markdown);
      var file := manifest[|manifest| - 1];
      if file in files then init + [LoadOne(file, files, imagesUri, markdown)] else init
  }

  /** `load_chapters`: walks the manifest, skips the files that do not
      exist and wraps each converted chapter. */
  method LoadChapters(manifest: seq<string>, files: map<string, string>, imagesUri: string,
                      markdown: string -> string)
    returns (chapters: seq<Chapter>)
    ensures chapters == Loaded(manifest, files, imagesUri, markdown)
  {
    chapters := [];
    for i := 0 to |manifest|
      invariant chapters == Loaded(manifest[..i], files, imagesUri, markdown)
    {
      assert manifest[..i + 1][..i] == manifest[..i];
      var chapterFile := manifest[i];
      if chapterFile !in files {
        continue;
      }
      var mdContent := files[chapterFile];
      var htmlContent := ConvertMarkdownToHtml(mdContent, imagesUri, markdown);
      chapters := chapters + [Chapter(chapterFile, ChapterDiv(chapterFile, htmlContent))];
    }
    assert manifest[..|manifest|] == manifest;
  }

  /** The loaded chapters are the manifest entries whose file exists, in
      manifest order: `idx` maps each loaded chapter to its manifest
      position, strictly increasing, and reaches every existing entry. */
  lemma {:induction false} LoadedIsManifestFilter(manifest: seq<string>, files: map<string, string>,
                                                   imagesUri: string, markdown: string -> string)
    returns (idx: seq<nat>)
    ensures |idx| == |Loaded(manifest, files, imagesUri, markdown)|
    ensures forall k :: 0 <= k < |idx| ==>
      idx[k] < |manifest| && manifest[idx[k]] in files &&
      Loaded(manifest, files, imagesUri, markdown)[k] == LoadOne(manifest[idx[k]], files, imagesUri, markdown)
    ensures forall k, l :: 0 <= k < l < |idx| ==> idx[k] < idx[l]
    ensures forall j :: 0 <= j < |manifest| && manifest[j] in files ==>
      exists k :: 0 <= k < |idx| && idx[k] == j
    decreases |manifest|
  {
    if manifest == [] {
      idx := [];
    } else {
      var n := |manifest| - 1;
      var init := manifest[..n];
      var prev := LoadedIsManifestFilter(init, files, imagesUri, markdown);
      var loaded := Loaded(manifest, files, imagesUri, markdown);
      var before := Loaded(init, files, imagesUri, markdown);
      if manifest[n] in files {
        idx := prev + [n];
        assert loaded == before + [LoadOne(manifest[n], files, imagesUri, markdown)];
        forall j | 0 <= j < |manifest| && manifest[j] in files
          ensures exists k :: 0 <= k < |idx| && idx[k] == j
        {
          if j == n {
            assert idx[|prev|] == j;
          } else {
            assert init[j] == manifest[j];
            var k :| 0 <= k < |prev| && prev[k] == j;
            assert idx[k] == j;
          }
        }
      } else {
        idx := prev;
        forall j | 0 <= j < |manifest| && manifest[j] in files
          ensures exists k :: 0 <= k < |idx| && idx[k] == j
        {
          assert j != n;
          assert init[j] == manifest[j];
        }
      }
    }
  }

  /** A file is among the loaded chapters exactly when it is in the manifest
      and exists; with a manifest free of repeats, each is loaded once. */
  lemma LoadedExactlyExisting(manifest: seq<string>, files: map<string, string>,
                              imagesUri: string, markdown: string -> string)
    ensures forall f :: f in FilesOf(Loaded(manifest, files, imagesUri, markdown)) <==>
      f in manifest && f in files
    ensures NoDuplicates(manifest) ==> NoDuplicates(FilesOf(Loaded(manifest, files, imagesUri, markdown)))
  {
    var loaded := Loaded(manifest, files, imagesUri, markdown);
    var names := FilesOf(loaded);
    var idx := LoadedIsManifestFilter(manifest, files, imagesUri, markdown);
    forall f ensures f in names <==> f in manifest && f in files {
      if f in names {
        var k :| 0 <= k < |names| && names[k] == f;
        assert loaded[k].file == manifest[idx[k]];
      }
      if f in manifest && f in files {
        var j :| 0 <= j < |manifest| && manifest[j] == f;
        var k :| 0 <= k < |idx| && idx[k] == j;
        assert names[k] == f;
      }
    }
    if NoDuplicates(manifest) {
      forall i, j | 0 <= i < j < |names| ensures names[i] != names[j] {
        assert names[i] == manifest[idx[i]] && names[j] == manifest[idx[j]];
      }
    }
  }

  /** Every loaded chapter's HTML is its converted body wrapped in a chapter
      container whose id is the chapter's file name. */
  lemma {:induction false} LoadedChapterIsWrapped(manifest: seq<string>, files: map<string, string>,
                                                 imagesUri: string, markdown: string -> string, k: nat)
    requires k < |Loaded(manifest, files, imagesUri, markdown)|
    ensures var c := Loaded(manifest, files, imagesUri, markdown)[k];
      c.file in files &&
      c.html == ChapterDiv(c.file, ConvertMarkdownToHtml(files[c.file], imagesUri, markdown))
  {
    var idx := LoadedIsManifestFilter(manifest, files, imagesUri, markdown);
  }

  // ---------------------------------------------------------------------
  // Cover and copyright pages

  const CoverOpen: string := "\n    <div class=\"cover-page\">\n        "
  const CoverClose: string := "\n    </div>\n    "

  function CoverImgTag(imagesUri: string): string
  {
    "<img src=\"" + imagesUri + "/book-cover.png\" alt=\"Book Cover\">"
  }

  /** `generate_cover_page`: the cover image appears exactly when its file
      exists; the page holds nothing else. */
  function CoverPage(coverExists: bool, imagesUri: string): (r: string)
    ensures |CoverOpen| < |r|
    ensures coverExists <==> StartsWith(r[|CoverOpen|..], "<img")
    ensures coverExists ==> MatchAt(r, CoverImgTag(imagesUri), |CoverOpen|)
    ensures !coverExists ==> r == CoverOpen + CoverClose
  {
    var tag := if coverExists then CoverImgTag(imagesUri) else "";
    var r := CoverOpen + tag + CoverClose;
    assert r[|CoverOpen|..] == tag + CoverClose;
    assert coverExists ==> (tag + CoverClose)[..4] == "<img";
    assert !coverExists ==> (tag + CoverClose)[0] == '\n';
    SubstringOfConcat(CoverOpen, tag, CoverClose);
    r
  }

  const CopyrightOpen: string := "\n    <div class=\"copyright-page\">\n        "
  const CopyrightDisclaimer: string :=
    "        <br><br>\n"
    + "        <p>이 책의 저작권은 저자에게 있습니다.</p>\n"
    + "        <p>이 책의 내용은 학습 목적으로 자유롭게 사용할 수 있습니다.</p>\n"
    + "        <br>\n        <p>PDF 생성일: "
  const CopyrightClose: string := "</p>\n    </div>\n    "

  function TitleHeading(title: string): string { "<h2>" + title + "</h2>" }
  function SubtitleLines(subtitle: string): string
  {
    "\n        <p><strong>" + subtitle + "</strong></p>\n        <br>\n        "
  }
  function AuthorLine(author: string): string { "<p>지은이: " + author + "</p>" }
  function PublisherLine(publisher: string): string { "<p>출판사: " + publisher + "</p>" }
  function YearLine(year: string): string { "\n        <p>발행연도: " + year + "년</p>\n" }

  /** `generate_copyright_page`; `generated` is the clock reading. */
  function CopyrightPage(meta: Metadata, generated: Dates.Date): string
    requires Dates.Valid(generated)
  {
    CopyrightOpen + TitleHeading(meta.title) + SubtitleLines(meta.subtitle)
    + AuthorLine(meta.author) + "\n        " + PublisherLine(meta.publisher)
    + YearLine(meta.year) + CopyrightDisclaimer + Dates.Korean(generated) + CopyrightClose
  }

  /** Where the named pieces sit in a text laid out like the copyright page. */
  lemma CopyrightPieces(o: string, t: string, sub: string, a: string, g: string, p: string,
                        y: string, dis: string, d: string, c: string)
    returns (titleAt: nat, subtitleAt: nat, authorAt: nat, publisherAt: nat, yearAt: nat,
             disclaimerAt: nat, dateAt: nat)
    ensures var page := o + t + sub + a + g + p + y + dis + d + c;
      && MatchAt(page, t, titleAt)
      && MatchAt(page, sub, subtitleAt)
      && MatchAt(page, a, authorAt)
      && MatchAt(page, p, publisherAt)
      && MatchAt(page, y, yearAt)
      && MatchAt(page, dis, disclaimerAt)
      && MatchAt(page, d, dateAt)
    ensures titleAt == |o| && subtitleAt == titleAt + |t| && authorAt == subtitleAt + |sub|
    ensures publisherAt == authorAt + |a| + |g| && yearAt == publisherAt + |p|
    ensures disclaimerAt == yearAt + |y| && dateAt == disclaimerAt + |dis|
  {
    var c1 := o + t;
    var c2 := c1 + sub;
    var c3 := c2 + a;
    var c4 := c3 + g;
    var c5 := c4 + p;
    var c6 := c5 + y;
    var c7 := c6 + dis;
    var c8 := c7 + d;
    titleAt, subtitleAt, authorAt, publisherAt := |o|, |c1|, |c2|, |c4|;
    yearAt, disclaimerAt, dateAt := |c5|, |c6|, |c7|;
    // Each piece sits right after what precedes it, and stays there as the
    // rest of the page is appended.
    MatchAfter(o, t);
    MatchExtendRight(c1, sub, t, titleAt);
    MatchAfter(c1, sub);
    MatchExtendRight(c2, a, t, titleAt);
    MatchExtendRight(c2, a, sub, subtitleAt);
    MatchAfter(c2, a);
    MatchExtendRight(c3, g, t, titleAt);
    MatchExtendRight(c3, g, sub, subtitleAt);
    MatchExtendRight(c3, g, a, authorAt);
    MatchExtendRight(c4, p, t, titleAt);
    MatchExtendRight(c4, p, sub, subtitleAt);
    MatchExtendRight(c4, p, a, authorAt);
    MatchAfter(c4, p);
    MatchExtendRight(c5, y, t, titleAt);
    MatchExtendRight(c5, y, sub, subtitleAt);
    MatchExtendRight(c5, y, a, authorAt);
    MatchExtendRight(c5, y, p, publisherAt);
    MatchAfter(c5, y);
    MatchExtendRight(c6, dis, t, titleAt);
    MatchExtendRight(c6, dis, sub, subtitleAt);
    MatchExtendRight(c6, dis, a, authorAt);
    MatchExtendRight(c6, dis, p, publisherAt);
    MatchExtendRight(c6, dis, y, yearAt);
    MatchAfter(c6, dis);
    MatchExtendRight(c7, d, t, titleAt);
    MatchExtendRight(c7, d, sub, subtitleAt);
    MatchExtendRight(c7, d, a, authorAt);
    MatchExtendRight(c7, d, p, publisherAt);
    MatchExtendRight(c7, d, y, yearAt);
    MatchExtendRight(c7, d, dis, disclaimerAt);
    MatchAfter(c7, d);
    MatchExtendRight(c8, c, t, titleAt);
    MatchExtendRight(c8, c, sub, subtitleAt);
    MatchExtendRight(c8, c, a, authorAt);
    MatchExtendRight(c8, c, p, publisherAt);
    MatchExtendRight(c8, c, y, yearAt);
    MatchExtendRight(c8, c, dis, disclaimerAt);
    MatchExtendRight(c8, c, d, dateAt);
  }

  /** The copyright page shows every rendered metadata field (title,
      subtitle, author, publisher, year), then the two fixed notices, then
      the generation date, in that order; the date can be read back. */
  lemma CopyrightShowsBookAndDate(meta: Metadata, generated: Dates.Date)
    returns (titleAt: nat, subtitleAt: nat, authorAt: nat, publisherAt: nat, yearAt: nat,
             disclaimerAt: nat, dateAt: nat)
    requires Dates.Valid(generated)
    ensures var page := CopyrightPage(meta, generated);
      && MatchAt(page, TitleHeading(meta.title), titleAt)
      && MatchAt(page, SubtitleLines(meta.subtitle), subtitleAt)
      && MatchAt(page, AuthorLine(meta.author), authorAt)
      && MatchAt(page, PublisherLine(meta.publisher), publisherAt)
      && MatchAt(page, YearLine(meta.year), yearAt)
      && MatchAt(page, CopyrightDisclaimer, disclaimerAt)
      && MatchAt(page, Dates.Korean(generated), dateAt)
      && titleAt < subtitleAt < authorAt < publisherAt < yearAt < disclaimerAt < dateAt
      && Dates.Value(page[dateAt..dateAt + 4]) == generated.year
      && Dates.Value(page[dateAt + 6..dateAt + 8]) == generated.month
      && Dates.Value(page[dateAt + 10..dateAt + 12]) == generated.day
  {
    var page := CopyrightPage(meta, generated);
    var t, sub := TitleHeading(meta.title), SubtitleLines(meta.subtitle);
    var a, p := AuthorLine(meta.author), PublisherLine(meta.publisher);
    var y, d := YearLine(meta.year), Dates.Korean(generated);
    titleAt, subtitleAt, authorAt, publisherAt, yearAt, disclaimerAt, dateAt :=
      CopyrightPieces(CopyrightOpen, t, sub, a, "\n        ", p, y, CopyrightDisclaimer, d, CopyrightClose);
    DateReadsBack(page, generated, dateAt);
  }

  /** Wherever the Korean date line stands, its fields read back. */
  lemma DateReadsBack(page: string, date: Dates.Date, at: nat)
    requires Dates.Valid(date) && MatchAt(page, Dates.Korean(date), at)
    ensures Dates.Value(page[at..at + 4]) == date.year
    ensures Dates.Value(page[at + 6..at + 8]) == date.month
    ensures Dates.Value(page[at + 10..at + 12]) == date.day
  {
    var d := Dates.Korean(date);
    Dates.KoreanRoundTrip(date);
    MatchSlice(page, d, at, 0, 4);
    MatchSlice(page, d, at, 6, 8);
    MatchSlice(page, d, at, 10, 12);
  }

  // ---------------------------------------------------------------------
  // Table of contents

  /** The display title: the part title when there is one, else the file name. */
  function Title(titles: map<string, string>, file: string): string
  {
    if file in titles then titles[file] else file
  }

  function Anchor(file: string): string
  {
    "href='#" + file + "'"
  }

  function TocItem(file: string, title: string): string
  {
    "<li><a " + Anchor(file) + ">" + title + "</a></li>"
  }

  /** One list item per manifest entry, in manifest order. */
  function TocItems(manifest: seq<string>, titles: map<string, string>): seq<string>
  {
    seq(|manifest|, k requires 0 <= k < |manifest| => TocItem(manifest[k], Title(titles, manifest[k])))
  }

  const TocOpen: string := "\n    <div class=\"toc-page\">\n        <h1>목차</h1>\n        <ul>\n            "
  const TocClose: string := "\n        </ul>\n    </div>\n    "

  function TocPage(items: seq<string>): string
  {
    TocOpen + Join(items, "") + TocClose
  }

  /** `generate_toc`. Its chapter argument is not read: the entries come
      from the manifest, loaded or not. */
  method GenerateToc(chaptersHtml: seq<Chapter>, manifest: seq<string>, titles: map<string, string>)
    returns (toc: string)
    ensures toc == TocPage(TocItems(manifest, titles))
  {
    var tocItems: seq<string> := [];
    for i := 0 to |manifest|
      invariant |tocItems| == i
      invariant forall k :: 0 <= k < i ==> tocItems[k] == TocItem(manifest[k], Title(titles, manifest[k]))
    {
      var chapterFile := manifest[i];
      var title := if chapterFile in titles then titles[chapterFile] else chapterFile;
      tocItems := tocItems + [TocItem(chapterFile, title)];
    }
    assert tocItems == TocItems(manifest, titles);
    toc := TocPage(tocItems);
  }

  /** Where the item of manifest entry `k` starts in the TOC page. */
  function TocItemAt(manifest: seq<string>, titles: map<string, string>, k: nat): nat
    requires k <= |manifest|
  {
    |TocOpen| + JoinOffset(TocItems(manifest, titles), "", k)
  }

  /** The TOC list is made of exactly the manifest's items, back to back in
      manifest order: item `k` links to `#file` and shows the part title,
      or the file name when there is none. */
  lemma TocListsManifest(manifest: seq<string>, titles: map<string, string>, k: nat)
    requires k < |manifest|
    ensures var page := TocPage(TocItems(manifest, titles));
      && MatchAt(page, TocItem(manifest[k], Title(titles, manifest[k])), TocItemAt(manifest, titles, k))
      && TocItemAt(manifest, titles, k + 1)
         == TocItemAt(manifest, titles, k) + |TocItem(manifest[k], Title(titles, manifest[k]))|
      && TocItemAt(manifest, titles, 0) == |TocOpen|
      && TocItemAt(manifest, titles, |manifest|) + |TocClose| == |page|
  {
    var items := TocItems(manifest, titles);
    var body := Join(items, "");
    JoinAt(items, "", k);
    SubstringOfConcat(TocOpen, body, TocClose);
    MatchInside(TocPage(items), body, |TocOpen|, items[k], JoinOffset(items, "", k));
    assert items[..|items|] == items;
  }

  /** A TOC item's link target follows its seven-character opening. */
  lemma AnchorInItem(file: string, title: string)
    ensures MatchAt(TocItem(file, title), Anchor(file), 7)
  {
    var open, anchor := "<li><a ", Anchor(file);
    var i1 := open + anchor;
    var i2 := i1 + ">";
    var i3 := i2 + title;
    MatchAfter(open, anchor);
    MatchExtendRight(i1, ">", anchor, 7);
    MatchExtendRight(i2, title, anchor, 7);
    MatchExtendRight(i3, "</a></li>", anchor, 7);
  }

  /** The TOC holds a link to `#file` for manifest entry `k`. */
  lemma TocLinksEntry(manifest: seq<string>, titles: map<string, string>, k: nat)
    returns (at: nat)
    requires k < |manifest|
    ensures MatchAt(TocPage(TocItems(manifest, titles)), Anchor(manifest[k]), at)
  {
    TocListsManifest(manifest, titles, k);
    var item := TocItem(manifest[k], Title(titles, manifest[k]));
    AnchorInItem(manifest[k], Title(titles, manifest[k]));
    MatchInside(TocPage(TocItems(manifest, titles)), item, TocItemAt(manifest, titles, k),
                Anchor(manifest[k]), 7);
    at := TocItemAt(manifest, titles, k) + 7;
  }

  /** Every loaded chapter's container id has a matching TOC link target. */
  lemma ChapterAnchorInToc(manifest: seq<string>, files: map<string, string>, imagesUri: string,
                           markdown: string -> string, titles: map<string, string>, k: nat)
    returns (at: nat)
    requires k < |Loaded(manifest, files, imagesUri, markdown)|
    ensures var c := Loaded(manifest, files, imagesUri, markdown)[k];
      && StartsWith(c.html, ChapterOpen(c.file))
      && MatchAt(TocPage(TocItems(manifest, titles)), Anchor(c.file), at)
  {
    var idx := LoadedIsManifestFilter(manifest, files, imagesUri, markdown);
    var c := Loaded(manifest, files, imagesUri, markdown)[k];
    at := TocLinksEntry(manifest, titles, idx[k]);
    assert c.html[..|ChapterOpen(c.file)|] == ChapterOpen(c.file);
  }

  /** A quirk of the script: a manifest entry whose file is missing is not
      loaded, yet the TOC still links to it. */
  lemma MissingChapterKeepsTocLink(manifest: seq<string>, files: map<string, string>, imagesUri: string,
                                   markdown: string -> string, titles: map<string, string>, j: nat)
    returns (at: nat)
    requires j < |manifest| && manifest[j] !in files
    ensures manifest[j] !in FilesOf(Loaded(manifest, files, imagesUri, markdown))
    ensures MatchAt(TocPage(TocItems(manifest, titles)), Anchor(manifest[j]), at)
  {
    LoadedExactlyExisting(manifest, files, imagesUri, markdown);
    at := TocLinksEntry(manifest, titles, j);
  }

  /** The shipped manifest lists five distinct files, each with a part
      title. */
  lemma ShippedManifest()
    ensures |SpringAiBook.manifest| == 5 && NoDuplicates(SpringAiBook.manifest)
    ensures forall k :: 0 <= k < |SpringAiBook.manifest| ==> SpringAiBook.manifest[k] in SpringAiBook.titles
  {
  }

  /** In the shipped book the file-name fallback is never used: every TOC
      item shows its part title. */
  lemma ShippedTocShowsPartTitles(k: nat) returns (at: nat)
    requires k < |SpringAiBook.manifest|
    ensures var file := SpringAiBook.manifest[k];
      && file in SpringAiBook.titles
      && MatchAt(TocPage(TocItems(SpringAiBook.manifest, SpringAiBook.titles)),
                 TocItem(file, SpringAiBook.titles[file]), at)
  {
    ShippedManifest();
    TocListsManifest(SpringAiBook.manifest, SpringAiBook.titles, k);
    at := TocItemAt(SpringAiBook.manifest, SpringAiBook.titles, k);
  }

  // ---------------------------------------------------------------------
  // The whole document

  const HeadOpen: string :=
    "\n    <!DOCTYPE html>\n    <html lang=\"ko\">\n    <head>\n        <meta charset=\"UTF-8\">\n"
    + "        <meta name=\"viewport\" content=\"width=device-width, initial-scale=1.0\">\n        "
  const HeadClose: string := "\n    </head>\n    <body>\n        "
  const Gap: string := "\n        "
  const HtmlTail: string := "\n    </body>\n    </html>\n    "

  function TitleElement(title: string): string { "<title>" + title + "</title>" }

  function HtmlHead(title: string): string
  {
    HeadOpen + TitleElement(title) + HeadClose
  }

  /** The document text of `generate_full_html` from its three fragments and
      the loaded chapters. */
  function Assemble(title: string, cover: string, copyright: string, toc: string,
                    chapters: seq<Chapter>): string
  {
    HtmlHead(title) + cover + Gap + copyright + Gap + toc + Gap
    + Join(HtmlsOf(chapters), "\n") + HtmlTail
  }

  /** The document `generate_full_html` returns for `chapters` under the
      configuration `book`. */
  function FullHtml(chapters: seq<Chapter>, book: Config, coverExists: bool, imagesUri: string,
                    generated: Dates.Date): string
    requires Dates.Valid(generated)
  {
    Assemble(book.meta.title, CoverPage(coverExists, imagesUri), CopyrightPage(book.meta, generated),
             TocPage(TocItems(book.manifest, book.titles)), chapters)
  }

  /** `generate_full_html`. */
  method GenerateFullHtml(chapters: seq<Chapter>, book: Config, coverExists: bool, imagesUri: string,
                          generated: Dates.Date)
    returns (doc: string)
    requires Dates.Valid(generated)
    ensures doc == FullHtml(chapters, book, coverExists, imagesUri, generated)
  {
    var cover := CoverPage(coverExists, imagesUri);
    var copyrightPage := CopyrightPage(book.meta, generated);
    var toc := GenerateToc(chapters, book.manifest, book.titles);
    var chaptersHtml := Join(HtmlsOf(chapters), "\n");
    doc := HtmlHead(book.meta.title) + cover + Gap + copyrightPage + Gap + toc + Gap + chaptersHtml + HtmlTail;
  }

  /** Where chapter `k` starts among the chapters joined with newlines. */
  function ChapterAt(chapters: seq<Chapter>, k: nat): nat
    requires k <= |chapters|
  {
    JoinOffset(HtmlsOf(chapters), "\n", k)
  }

  /** The document's title is the book title, and its body holds the cover,
      then the copyright page, then the TOC, then every chapter in load
      order, each at its own place and none overlapping the next. */
  lemma DocumentLayout(title: string, cover: string, copyright: string, toc: string,
                       chapters: seq<Chapter>)
    returns (titleAt: nat, coverAt: nat, copyrightAt: nat, tocAt: nat, chaptersAt: nat)
    ensures var doc := Assemble(title, cover, copyright, toc, chapters);
      && MatchAt(doc, TitleElement(title), titleAt)
      && MatchAt(doc, cover, coverAt)
      && MatchAt(doc, copyright, copyrightAt)
      && MatchAt(doc, toc, tocAt)
      && titleAt < coverAt
      && coverAt + |cover| < copyrightAt
      && copyrightAt + |copyright| < tocAt
      && tocAt + |toc| < chaptersAt
      && (forall k :: 0 <= k < |chapters| ==> MatchAt(doc, chapters[k].html, chaptersAt + ChapterAt(chapters, k)))
      && (forall k :: 0 <= k < |chapters| ==>
            ChapterAt(chapters, k) + |chapters[k].html| < ChapterAt(chapters, k + 1))
  {
    var body := Join(HtmlsOf(chapters), "\n");
    var te := TitleElement(title);
    var d1 := HeadOpen + te;
    var d2 := d1 + HeadClose;
    var d3 := d2 + cover;
    var d4 := d3 + Gap;
    var d5 := d4 + copyright;
    var d6 := d5 + Gap;
    var d7 := d6 + toc;
    var d8 := d7 + Gap;
    var d9 := d8 + body;
    var doc := d9 + HtmlTail;
    titleAt, coverAt, copyrightAt, tocAt, chaptersAt := |HeadOpen|, |d2|, |d4|, |d6|, |d8|;
    // Each piece sits right after what precedes it, and stays there as the
    // rest of the document is appended.
    MatchAfter(HeadOpen, te);
    MatchExtendRight(d1, HeadClose, te, titleAt);
    MatchExtendRight(d2, cover, te, titleAt);
    MatchAfter(d2, cover);
    MatchExtendRight(d3, Gap, te, titleAt);
    MatchExtendRight(d3, Gap, cover, coverAt);
    MatchExtendRight(d4, copyright, te, titleAt);
    MatchExtendRight(d4, copyright, cover, coverAt);
    MatchAfter(d4, copyright);
    MatchExtendRight(d5, Gap, te, titleAt);
    MatchExtendRight(d5, Gap, cover, coverAt);
    MatchExtendRight(d5, Gap, copyright, copyrightAt);
    MatchExtendRight(d6, toc, te, titleAt);
    MatchExtendRight(d6, toc, cover, coverAt);
    MatchExtendRight(d6, toc, copyright, copyrightAt);
    MatchAfter(d6, toc);
    MatchExtendRight(d7, Gap, te, titleAt);
    MatchExtendRight(d7, Gap, cover, coverAt);
    MatchExtendRight(d7, Gap, copyright, copyrightAt);
    MatchExtendRight(d7, Gap, toc, tocAt);
    MatchExtendRight(d8, body, te, titleAt);
    MatchExtendRight(d8, body, cover, coverAt);
    MatchExtendRight(d8, body, copyright, copyrightAt);
    MatchExtendRight(d8, body, toc, tocAt);
    MatchAfter(d8, body);
    MatchExtendRight(d9, HtmlTail, te, titleAt);
    MatchExtendRight(d9, HtmlTail, cover, coverAt);
    MatchExtendRight(d9, HtmlTail, copyright, copyrightAt);
    MatchExtendRight(d9, HtmlTail, toc, tocAt);
    MatchExtendRight(d9, HtmlTail, body, chaptersAt);
    ChaptersInOrder(doc, chapters, chaptersAt);
  }

  /** Wherever the joined chapters sit, each chapter sits at its own offset
      from there, in load order and without overlap. */
  lemma ChaptersInOrder(doc: string, chapters: seq<Chapter>, at: nat)
    requires MatchAt(doc, Join(HtmlsOf(chapters), "\n"), at)
    ensures forall k :: 0 <= k < |chapters| ==> MatchAt(doc, chapters[k].html, at + ChapterAt(chapters, k))
    ensures forall k :: 0 <= k < |chapters| ==>
      ChapterAt(chapters, k) + |chapters[k].html| < ChapterAt(chapters, k + 1)
  {
    var htmls := HtmlsOf(chapters);
    forall k | 0 <= k < |chapters|
      ensures MatchAt(doc, chapters[k].html, at + ChapterAt(chapters, k))
      ensures ChapterAt(chapters, k) + |chapters[k].html| < ChapterAt(chapters, k + 1)
    {
      assert htmls[k] == chapters[k].html;
      JoinAt(htmls, "\n", k);
      MatchInside(doc, Join(htmls, "\n"), at, htmls[k], JoinOffset(htmls, "\n", k));
    }
  }

  /** A link found inside an earlier piece of a text comes before a target
      that opens a later piece. */
  lemma LinkBeforeTarget(doc: string, toc: string, tocAt: nat, link: string, inToc: nat,
                         html: string, htmlAt: nat, open: string)
    returns (linkAt: nat)
    requires MatchAt(doc, toc, tocAt) && MatchAt(toc, link, inToc) && tocAt + |toc| < htmlAt
    requires MatchAt(doc, html, htmlAt) && StartsWith(html, open)
    ensures linkAt == tocAt + inToc
    ensures MatchAt(doc, link, linkAt) && MatchAt(doc, open, htmlAt) && linkAt < htmlAt
  {
    MatchInside(doc, toc, tocAt, link, inToc);
    StartsWithMatch(html, open);
    MatchInside(doc, html, htmlAt, open, 0);
    linkAt := tocAt + inToc;
  }

  /** In any assembled document, a chapter whose container opening is known
      and whose anchor the TOC holds is linked from the TOC before the
      container starts. */
  lemma LinkPrecedesChapter(title: string, cover: string, copyright: string, toc: string,
                            chapters: seq<Chapter>, k: nat, inToc: nat)
    returns (anchorAt: nat, divAt: nat)
    requires k < |chapters|
    requires MatchAt(toc, Anchor(chapters[k].file), inToc)
    requires StartsWith(chapters[k].html, ChapterOpen(chapters[k].file))
    ensures var doc := Assemble(title, cover, copyright, toc, chapters);
      && MatchAt(doc, Anchor(chapters[k].file), anchorAt)
      && MatchAt(doc, ChapterOpen(chapters[k].file), divAt)
      && anchorAt < divAt
  {
    var doc := Assemble(title, cover, copyright, toc, chapters);
    var c := chapters[k];
    var titleAt, coverAt, copyrightAt, tocAt, chaptersAt := DocumentLayout(title, cover, copyright, toc, chapters);
    divAt := chaptersAt + ChapterAt(chapters, k);
    assert MatchAt(doc, c.html, divAt);
    anchorAt := LinkBeforeTarget(doc, toc, tocAt, Anchor(c.file), inToc, c.html, divAt, ChapterOpen(c.file));
  }

  /** The link-to-section correspondence holds in the finished document: for
      every loaded chapter, the TOC inside the document links to `#file` and
      the chapter's container with that id follows later in the document. */
  lemma EveryChapterLinkResolves(manifest: seq<string>, files: map<string, string>, imagesUri: string,
                                 markdown: string -> string, titles: map<string, string>,
                                 title: string, cover: string, copyright: string, k: nat)
    returns (anchorAt: nat, divAt: nat)
    requires k < |Loaded(manifest, files, imagesUri, markdown)|
    ensures var chapters := Loaded(manifest, files, imagesUri, markdown);
      var doc := Assemble(title, cover, copyright, TocPage(TocItems(manifest, titles)), chapters);
      && MatchAt(doc, Anchor(chapters[k].file), anchorAt)
      && MatchAt(doc, ChapterOpen(chapters[k].file), divAt)
      && anchorAt < divAt
  {
    var chapters := Loaded(manifest, files, imagesUri, markdown);
    var toc := TocPage(TocItems(manifest, titles));
    var inToc := ChapterAnchorInToc(manifest, files, imagesUri, markdown, titles, k);
    anchorAt, divAt := LinkPrecedesChapter(title, cover, copyright, toc, chapters, k, inToc);
  }
}
