# A verified model of the Spring AI book's PDF generator

`scripts/generate_pdf.py` builds the book "바로 써먹는 Spring AI" as one
HTML document and then renders it to a PDF. This project models the script's
core in Dafny and proves properties about it.

- The script reads the chapter files named in its manifest (`CHAPTERS`).
  It skips files that do not exist. For each chapter it points relative
  image links at the absolute `file://` images directory. It converts the
  markdown to HTML and wraps the result in a `<div class="chapter">`
  container whose id is the file name.
- It builds a cover page, a copyright page stamped with today's date and a
  table of contents (TOC) that links to every manifest entry.
- It joins these pieces into one document, writes a debug copy to
  `book.html` and renders the PDF to the output path. The output path is
  `argv[1]` when one is given; otherwise it is a file name stamped with the
  date.

The model has five modules:

- `Text` (`text.dfy`): Python's `str.replace` as a leftmost,
  non-overlapping `ReplaceAll`, `str.join` as `Join`, and facts about where
  one string occurs inside another (`MatchAt`).
- `ImageLinks` (`image_links.dfy`): the two replace passes of
  `convert_markdown_to_html`, and `Scan`, a one-pass reference reading of
  them.
- `Dates` (`dates.dfy`): the `%Y%m%d` and `%Y년 %m월 %d일` date stamps and
  how to read them back.
- `Book` (`book.dfy`): the manifest, the part titles, the metadata,
  chapter loading (a method with a loop), the cover and copyright pages,
  the TOC (a method with a loop) and the full document.
- `Run` (`run.dfy`): `generate_pdf` and `main`.

The world outside the script is passed in as parameters:

- the file system, as a map from chapter file name to contents;
- whether the cover image exists;
- the images directory's URI;
- the clock, as two dates (the script reads it twice);
- the command line;
- the markdown library, as a function `markdown` about which nothing is
  assumed.

## Model

| member | source | states |
|---|---|---|
| ImageLinks.TwoPassesAreOneScan | scripts/generate_pdf.py:384-391 | Running the `](../images/` pass and then the `](images/` pass equals one left-to-right scan. The scan turns either spelling into `](<images uri>/` and copies every other character. This holds for any file URI. |
| ImageLinks.BothSpellingsAgree | scripts/generate_pdf.py:384-391 | A link in either spelling becomes the same absolute target, whatever text surrounds it. The text before and after the link is rewritten on its own. |
| ImageLinks.RewriteKeepsTextWithoutMarkers | scripts/generate_pdf.py:384-391 | Markdown that holds neither relative spelling comes back unchanged, for any images URI. |
| ImageLinks.RewriteLeavesNoRelativeLinks | scripts/generate_pdf.py:384-391 | After the rewrite, no `](../images/` and no `](images/` remain anywhere in the text. |
| ImageLinks.RewriteIdempotent | scripts/generate_pdf.py:384-391 | Rewriting an already rewritten chapter changes nothing. |
| ImageLinks.ScanLeavesNoMarkers | scripts/generate_pdf.py:384-391 | The reference scan's output contains neither relative spelling at any position. |
| ImageLinks.SpellingBecomesTarget | scripts/generate_pdf.py:384-391 | Wherever either spelling stands, the scan maps it to the target and scans the text on each side separately. |
| Book.ConvertIgnoresSpelling | scripts/generate_pdf.py:381-416 | `convert_markdown_to_html` gives the same HTML for a chapter whichever relative spelling its image link uses. This holds whatever the markdown library does. |
| Book.LoadChapters | scripts/generate_pdf.py:480-503 | The loop over the manifest returns exactly `Loaded`. Its invariant is that the chapters built so far are `Loaded` of the manifest prefix walked so far. |
| Book.LoadedIsManifestFilter | scripts/generate_pdf.py:484-501 | The loaded chapters are an order-preserving filter of the manifest. Chapter k comes from a strictly increasing index into the manifest, and that file exists. Every manifest entry whose file exists is loaded. |
| Book.LoadedExactlyExisting | scripts/generate_pdf.py:484-501 | A file name is among the loaded chapters if and only if it is in the manifest and its file exists. With a duplicate-free manifest, no chapter is loaded twice. |
| Book.LoadedChapterIsWrapped | scripts/generate_pdf.py:493-501 | Every loaded chapter's HTML is its converted file contents wrapped in `<div class="chapter" id="<file>">…</div>`. |
| Book.CoverPage | scripts/generate_pdf.py:420-432 | Right after the container's opening, the text starts with an `<img` tag if and only if the cover file exists. When it exists, the tag names the cover under the images URI. When it does not, the page is the empty `cover-page` container. |
| Book.CopyrightShowsBookAndDate | scripts/generate_pdf.py:435-451 | The copyright page shows the title, the subtitle, the author, the publisher, the year, the two fixed notices and then the generation date, in that order. Year, month and day read back from the date stamp. |
| Dates.KoreanRoundTrip | scripts/generate_pdf.py:449 | The `%Y년 %m월 %d일` stamp is 13 characters long. Its digit fields read back as the date's year, month and day. |
| Book.GenerateToc | scripts/generate_pdf.py:454-477 | The loop builds one `<li>` item per manifest entry, in manifest order. The loaded chapters are not consulted. The title is the part title when there is one, and the file name otherwise. |
| Book.TocListsManifest | scripts/generate_pdf.py:466-476 | The item for manifest entry k sits in the TOC page right after item k-1, and it shows the entry's title or the file name. The items fill the list between the page's opening and its closing. |
| Book.TocLinksEntry | scripts/generate_pdf.py:466-468 | The TOC page holds `href='#<file>'` for every manifest entry. |
| Book.ChapterAnchorInToc | scripts/generate_pdf.py:466-500 | Every loaded chapter's HTML opens its container with id `<file>`, and the TOC holds a link to `#<file>`. |
| Book.MissingChapterKeepsTocLink | scripts/generate_pdf.py:466-489 | A manifest entry whose file is missing is not loaded, yet the TOC still links to it. |
| Book.ShippedManifest | scripts/generate_pdf.py:39-45 | The shipped manifest lists five distinct files, and each of them has a part title. |
| Book.ShippedTocShowsPartTitles | scripts/generate_pdf.py:458-468 | In the shipped book, every TOC item shows its part title. The file-name fallback is never used. |
| Book.GenerateFullHtml | scripts/generate_pdf.py:506-529 | The method returns the document assembled from the book title, the cover, the copyright page, the TOC and the loaded chapters joined by newlines. |
| Book.DocumentLayout | scripts/generate_pdf.py:509-529 | In the document, the `<title>` element holds the book title. The cover, the copyright page, the TOC and the chapters follow it, in that order and without overlap. Each chapter sits at its own offset, in load order. |
| Book.EveryChapterLinkResolves | scripts/generate_pdf.py:454-529 | For every loaded chapter, the finished document holds a TOC link to `#<file>`. The chapter's container with that id comes later in the document. |
| Run.GeneratePdf | scripts/generate_pdf.py:532-575 | A run aborts with exit code 1 if and only if no chapter was loaded. Otherwise it writes the full document to `book.html` in the output directory and renders the PDF to the given path. |
| Run.WriteBook | scripts/generate_pdf.py:550-571 | The debug file `book.html` in the output directory receives the full document, and the PDF goes to the output path. |
| Run.AbortsExactlyWithoutChapterFiles | scripts/generate_pdf.py:544-548 | No chapter is loaded if and only if none of the manifest's files exists. |
| Run.Launch | scripts/generate_pdf.py:577-589 | `main` aborts with exit code 1 exactly when no manifest file exists. Otherwise the debug HTML is the full document of the shipped book. The PDF goes to `argv[1]` when it is given, and to the date-stamped default path otherwise. |
| Run.DefaultPathCarriesDate | scripts/generate_pdf.py:581-583 | The default path is the output directory, the book's prefix, eight digits and `.pdf`. The eight digits read back as the date. |
| Run.DefaultPathsDifferByDay | scripts/generate_pdf.py:581-583 | Runs on different days get different default output paths. |
| Dates.CompactRoundTrip | scripts/generate_pdf.py:581 | The `%Y%m%d` stamp is eight digits, and parsing it gives back the date. |

## Left out

- PDF rendering with WeasyPrint, the CSS and the font configuration: the model stops at the HTML handed to the renderer. The output file's size report is left out as well.
- The exit when WeasyPrint cannot be imported (`scripts/generate_pdf.py:30`): this is an import-time failure of a foreign library.
- The markdown library and its extensions: they are modelled as an arbitrary function `markdown`, so every property holds whatever it does.
- File I/O: the chapter directory is a map from file name to contents, the cover image's existence is a boolean, and the debug and PDF writes are fields of the run's `Outcome`.
- Printed progress, warning and error messages: they are not modelled.
- The clock: its two readings are the dates `today` (file name) and `generated` (copyright page). `%Y` is always rendered as four digits, zero-padded. The platform's `strftime` may not pad years below 1000.
- `Path.as_uri()`: it is the `imagesUri` parameter. The rewrite lemmas assume it starts with `file://` and holds no `]`, which `as_uri` ensures by percent-encoding. The cover tag's URI is modelled as the images URI followed by `/book-cover.png`.
- The unused `base_path` argument of `convert_markdown_to_html`: it is not modelled.
- `generate_toc`'s argument: the model keeps it but does not read it, as the script does not.
- The metadata `version` field: it is carried but never rendered, as in the code. The copyright page shows every other field.
- Directory creation, which happens before the empty-chapter check: an aborted run may still have created the output directory, and the model does not record this.
- Failures that raise an exception: an existing chapter file that cannot be read (for example, invalid UTF-8 or a directory with the chapter's name), a failed write of `book.html`, and an error inside the PDF renderer. In the script each of these ends the run with a traceback and a non-zero exit. The model has no such outcome: `Completed` means that no exception was raised.
- Path normalisation of `argv[1]`: the model passes the string through unchanged.
