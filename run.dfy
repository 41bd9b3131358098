/** The driver of `scripts/generate_pdf.py`: `generate_pdf`, which refuses
    to go on when no chapter could be loaded and otherwise writes the debug
    HTML beside the PDF, and `main`, which picks the output path. The file
    system, the clock and the command line are inputs; what the PDF
    renderer makes of the HTML is not part of this model. */
module Run {
  import opened Text
  import Dates
  import Book

  /** What the generator finds outside itself: the chapter files that exist
      (name to contents), whether the cover image exists, the `file://` URI
      of the images directory and the output directory. */
  datatype Environment = Environment(
    chapterFiles: map<string, string>, coverExists: bool,
    imagesUri: string, outputDir: string)

  /** How a run ends: `sys.exit` with a code, or the debug HTML written to
      `debugPath` and the PDF to `pdfPath`. Runs that end in an exception
      (an unreadable chapter, a failed write, a renderer error) are not
      modelled. */
  datatype Outcome =
    | Aborted(exitCode: int)
    | Completed(debugPath: string, debugHtml: string, pdfPath: string)

  /** The chapters a run loads. */
  function BookChapters(book: Book.Config, env: Environment, markdown: string -> string): seq<Book.Chapter>
  {
    Book.Loaded(book.manifest, env.chapterFiles, env.imagesUri, markdown)
  }

  /** `generate_pdf`: load the chapters and stop with exit code 1 when none
      was loaded; otherwise go on to write the book. */
  method GeneratePdf(outputPath: string, book: Book.Config, env: Environment, generated: Dates.Date,
                     markdown: string -> string)
    returns (outcome: Outcome)
    requires Dates.Valid(generated)
    ensures outcome.Aborted? <==> BookChapters(book, env, markdown) == []
    ensures outcome.Aborted? ==> outcome.exitCode == 1
    ensures outcome.Completed? ==>
      outcome == Completed(env.outputDir + "/book.html",
                           Book.FullHtml(BookChapters(book, env, markdown), book, env.coverExists, env.imagesUri, generated), outputPath)
  {
    var chapters := Book.LoadChapters(book.manifest, env.chapterFiles, env.imagesUri, markdown);
    if chapters == [] {
      return Aborted(1);
    }
    outcome := WriteBook(chapters, outputPath, book, env, generated);
  }

  /** The rest of `generate_pdf`: build the document, keep it as
      `book.html` in the output directory and render it to `outputPath`. */
  method WriteBook(chapters: seq<Book.Chapter>, outputPath: string, book: Book.Config, env: Environment,
                   generated: Dates.Date)
    returns (outcome: Outcome)
    requires Dates.Valid(generated)
    ensures outcome == Completed(env.outputDir + "/book.html", Book.FullHtml(chapters, book, env.coverExists, env.imagesUri, generated), outputPath)
  {
    var fullHtml := Book.GenerateFullHtml(chapters, book, env.coverExists, env.imagesUri, generated);
    var htmlOutput := env.outputDir + "/book.html";
    outcome := Completed(htmlOutput, fullHtml, outputPath);
  }

  /** A run stops exactly when none of the manifest's files exists. */
  lemma AbortsExactlyWithoutChapterFiles(book: Book.Config, env: Environment, markdown: string -> string)
    ensures BookChapters(book, env, markdown) == [] <==>
      forall k :: 0 <= k < |book.manifest| ==> book.manifest[k] !in env.chapterFiles
  {
    var loaded := BookChapters(book, env, markdown);
    var names := Book.FilesOf(loaded);
    Book.LoadedExactlyExisting(book.manifest, env.chapterFiles, env.imagesUri, markdown);
    if loaded != [] {
      assert names[0] in names;
    }
    forall k | 0 <= k < |book.manifest| && book.manifest[k] in env.chapterFiles
      ensures loaded != []
    {
      assert book.manifest[k] in names;
    }
  }

  const OutputPrefix: string := "바로_써먹는_Spring_AI_"
  const PdfSuffix: string := ".pdf"

  /** The default output path: the output directory, then the book's file
      name stamped with `today` as `%Y%m%d`. */
  function DefaultOutputPath(outputDir: string, today: Dates.Date): string
    requires Dates.Valid(today)
  {
    outputDir + "/" + OutputPrefix + Dates.Compact(today) + PdfSuffix
  }

  /** The default path is the output directory and the book's prefix,
      then eight digits from which `today` reads back, then `.pdf`. */
  lemma DefaultPathCarriesDate(outputDir: string, today: Dates.Date)
    requires Dates.Valid(today)
    ensures var path := DefaultOutputPath(outputDir, today);
      var n := |outputDir| + 1 + |OutputPrefix|;
      && StartsWith(path, outputDir + "/" + OutputPrefix)
      && |path| == n + 8 + |PdfSuffix|
      && Dates.ParseCompact(path[n..n + 8]) == today
      && path[n + 8..] == PdfSuffix
  {
    var head := outputDir + "/" + OutputPrefix;
    var stamp := Dates.Compact(today);
    Dates.CompactRoundTrip(today);
    var path := head + stamp + PdfSuffix;
    var n := |head|;
    assert path[..n] == head;
    assert path[n..n + 8] == stamp;
    assert path[n + 8..] == PdfSuffix;
  }

  /** Runs on different days write to different default files. */
  lemma DefaultPathsDifferByDay(outputDir: string, d1: Dates.Date, d2: Dates.Date)
    requires Dates.Valid(d1) && Dates.Valid(d2) && d1 != d2
    ensures DefaultOutputPath(outputDir, d1) != DefaultOutputPath(outputDir, d2)
  {
    DefaultPathCarriesDate(outputDir, d1);
    DefaultPathCarriesDate(outputDir, d2);
  }

  /** `main`: the default path, unless the command line names one; then
      `generate_pdf`. `today` is the clock reading for the file name and
      `generated` the later one for the copyright page. */
  method Launch(argv: seq<string>, env: Environment, today: Dates.Date, generated: Dates.Date,
                markdown: string -> string)
    returns (outcome: Outcome)
    requires Dates.Valid(today) && Dates.Valid(generated)
    ensures var manifest := Book.SpringAiBook.manifest;
      outcome.Aborted? <==> forall k :: 0 <= k < |manifest| ==> manifest[k] !in env.chapterFiles
    ensures outcome.Aborted? ==> outcome.exitCode == 1
    ensures outcome.Completed? ==>
      outcome.debugHtml == Book.FullHtml(BookChapters(Book.SpringAiBook, env, markdown), Book.SpringAiBook,
                                        env.coverExists, env.imagesUri, generated)
    ensures outcome.Completed? && |argv| > 1 ==> outcome.pdfPath == argv[1]
    ensures outcome.Completed? && |argv| <= 1 ==> outcome.pdfPath == DefaultOutputPath(env.outputDir, today)
  {
    var timestamp := Dates.Compact(today);
    var outputPath := env.outputDir + "/" + OutputPrefix + timestamp + PdfSuffix;
    if |argv| > 1 {
      outputPath := argv[1];
    }
    outcome := GeneratePdf(outputPath, Book.SpringAiBook, env, generated, markdown);
    AbortsExactlyWithoutChapterFiles(Book.SpringAiBook, env, markdown);
  }
}
