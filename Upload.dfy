/** The acceptance test `handleFileUpload` applies to a chosen file before
    reading it. */
module Upload {
  import opened JsText

  /** What the page reads of a File: `name`, `type` and `size` in bytes. */
  datatype FileInfo = FileInfo(name: string, mimeType: string, size: nat)

  /** Accepted, or the branch that rejected the file (the size is only
      looked at once the type test has passed). */
  datatype Verdict = Accepted | UnsupportedType | TooLarge

  const AllowedTypes: seq<string> := ["text/plain", "text/markdown"]
  const AllowedExtensions: seq<string> := ["txt", "md", "markdown"]

  /** `10 * 1024 * 1024` bytes. */
  const MaxUploadSize: nat := 10 * 1024 * 1024

  /** `file.name.split('.').pop().toLowerCase()`. */
  function FileExtension(f: FileInfo): string {
    Lower(AfterLastDot(f.name))
  }

  /** The first test of handleFileUpload passes: an allowed type OR an
      allowed extension. */
  predicate IsTextFile(f: FileInfo) {
    f.mimeType in AllowedTypes || FileExtension(f) in AllowedExtensions
  }

  /** The two tests of handleFileUpload, in the order the code makes them. */
  function CheckUpload(f: FileInfo): Verdict {
    if !IsTextFile(f) then UnsupportedType
    else if f.size > MaxUploadSize then TooLarge
    else Accepted
  }

  /** Each verdict, by the tests that lead to it: the size only matters
      once the type test has passed. */
  lemma CheckUploadCases(f: FileInfo)
    ensures CheckUpload(f) == UnsupportedType <==> !IsTextFile(f)
    ensures CheckUpload(f) == TooLarge <==> IsTextFile(f) && f.size > MaxUploadSize
    ensures CheckUpload(f) == Accepted <==> IsTextFile(f) && f.size <= MaxUploadSize
  {
  }

  /** A file is rejected exactly when neither its type nor its extension is
      allowed, or it is larger than 10 MiB. */
  lemma RejectedIff(f: FileInfo)
    ensures CheckUpload(f) != Accepted <==>
              (f.mimeType !in AllowedTypes && FileExtension(f) !in AllowedExtensions)
              || f.size > 10 * 1024 * 1024
  {
  }

  /** The size limit is inclusive: 10 MiB exactly passes, one byte more
      does not. */
  lemma SizeBoundary(name: string, mimeType: string)
    requires IsTextFile(FileInfo(name, mimeType, 0))
    ensures CheckUpload(FileInfo(name, mimeType, 10485760)) == Accepted
    ensures CheckUpload(FileInfo(name, mimeType, 10485761)) == TooLarge
  {
  }

  /** A dotted name's extension is the lowered text after its last '.'. */
  lemma ExtensionOfDottedName(stem: string, ext: string, mimeType: string, size: nat)
    requires '.' !in ext
    ensures FileExtension(FileInfo(stem + "." + ext, mimeType, size)) == Lower(ext)
  {
    AfterLastDotOfJoin(stem, ext);
  }

  lemma LowerMd()
    ensures Lower("MD") == "md"
  {
    assert Lower("MD")[0] == LowerChar('M') == 'm';
    assert Lower("MD")[1] == LowerChar('D') == 'd';
  }

  /** A `.md` (or `.MD`) file of 1 KiB is accepted whatever type the
      browser reports; an 11 MiB one is rejected as too large. */
  lemma MarkdownExamples(stem: string, mimeType: string)
    ensures CheckUpload(FileInfo(stem + ".md", mimeType, 1024)) == Accepted
    ensures CheckUpload(FileInfo(stem + ".MD", mimeType, 1024)) == Accepted
    ensures CheckUpload(FileInfo(stem + ".md", mimeType, 11 * 1024 * 1024)) == TooLarge
  {
    assert stem + ".md" == stem + "." + "md";
    assert stem + ".MD" == stem + "." + "MD";
    ExtensionOfDottedName(stem, "md", mimeType, 1024);
    ExtensionOfDottedName(stem, "MD", mimeType, 1024);
    ExtensionOfDottedName(stem, "md", mimeType, 11 * 1024 * 1024);
    LowerOfLowerWord("md");
    LowerMd();
  }

  /** A `.csv` file reported as `text/csv` is rejected as unsupported. */
  lemma CsvRejected(stem: string, size: nat)
    ensures CheckUpload(FileInfo(stem + ".csv", "text/csv", size)) == UnsupportedType
  {
    var f := FileInfo(stem + ".csv", "text/csv", size);
    assert stem + ".csv" == stem + "." + "csv";
    ExtensionOfDottedName(stem, "csv", "text/csv", size);
    LowerOfLowerWord("csv");
    assert "text/csv" !in AllowedTypes by {
      assert "text/csv"[5] != "text/plain"[5] && "text/csv"[5] != "text/markdown"[5];
    }
    assert "csv" !in AllowedExtensions by {
      assert "csv"[0] != "txt"[0] && "csv"[0] != "md"[0] && "csv"[0] != "markdown"[0];
    }
    assert !IsTextFile(f);
  }

  /** The type test alone lets any name through: a `.csv` file the browser
      reports as `text/plain` is accepted. */
  lemma PlainTextTypeSuffices(stem: string, size: nat)
    requires size <= MaxUploadSize
    ensures CheckUpload(FileInfo(stem + ".csv", "text/plain", size)) == Accepted
  {
  }

  /** A name without any '.' is its own extension. */
  lemma DotlessNameIsItsOwnExtension(name: string, mimeType: string, size: nat)
    requires '.' !in name
    ensures FileExtension(FileInfo(name, mimeType, size)) == Lower(name)
  {
    AfterLastDotNoDot(name);
  }

  /** So a file named just `Markdown`, with no extension at all, passes the
      extension test. */
  lemma FileNamedMarkdownAccepted(mimeType: string, size: nat)
    requires size <= MaxUploadSize
    ensures CheckUpload(FileInfo("Markdown", mimeType, size)) == Accepted
  {
    var f := FileInfo("Markdown", mimeType, size);
    assert '.' !in "Markdown";
    DotlessNameIsItsOwnExtension("Markdown", mimeType, size);
    LowerMarkdown();
    assert FileExtension(f) == AllowedExtensions[2];
    assert IsTextFile(f);
  }

  lemma LowerMarkdown()
    ensures Lower("Markdown") == "markdown"
  {
    var w := "arkdown";
    assert IsLowerWord(w);
    assert "Markdown" == ['M'] + w && "markdown" == ['m'] + w;
    assert ("Markdown")[1..] == w;
    LowerOfLowerWord(w);
  }
}
