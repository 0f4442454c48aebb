/** The page controller `MarkdownParser`: the state one page session holds
    and the handlers of the page's buttons and file control. Each handler
    is a method on the controller, specified by a function from the page
    as it was to the page it leaves; the properties the page keeps are
    lemmas about those functions. */
module Session {
  import opened Wrappers
  import opened JsText
  import opened FileNames
  import opened Upload
  import opened Catalogue

  /** What the Markdown engine returns for a text: the HTML, and the `img`
      elements a query of that HTML finds, in document order. */
  datatype Document = Document(html: string, imgs: seq<ImgElement>)

  /** `marked.parse`: a document, or None when the engine throws. */
  type Engine = string -> Option<Document>

  /** The output surface: the placeholder message, or a rendered document. */
  datatype Surface = Placeholder | Rendered(doc: Document)

  /** `this.output.querySelectorAll('img')`. The placeholder holds none. */
  function ImgElementsOf(s: Surface): seq<ImgElement> {
    match s
    case Placeholder => []
    case Rendered(doc) => doc.imgs
  }

  /** The toasts the handlers show, one constructor per distinct message. */
  datatype Notice =
    | EmptyInput | Parsed | ParseFailed | Cleared
    | NoImagesToDownload | DownloadingImages | ImagesDownloaded(count: nat) | BulkDownloadFailed
    | ImageMissing | ImageFetchFailed | ImageSaved(stem: string)
    | UnsupportedFile | FileTooLarge | FileLoaded(name: string) | FileReadFailed

  /** How parseMarkdown ends for a given input text. */
  datatype RenderAttempt = BlankInput | EngineError | RenderOk(doc: Document)

  /** parseMarkdown's decision: blank after trimming, the engine throws on
      the trimmed text, or the engine's document. */
  function RenderOf(input: string, engine: Engine): RenderAttempt {
    var text := Trim(input);
    if text == [] then BlankInput
    else match engine(text)
      case None => EngineError
      case Some(doc) => RenderOk(doc)
  }

  /** The input is refused exactly when it is blank; otherwise the engine
      sees the trimmed text, and its document is what gets rendered. */
  lemma RenderOfCases(input: string, engine: Engine)
    ensures RenderOf(input, engine).BlankInput? <==> AllWhitespace(input)
    ensures RenderOf(input, engine).EngineError? <==> !AllWhitespace(input) && engine(Trim(input)).None?
    ensures RenderOf(input, engine).RenderOk? ==> engine(Trim(input)) == Some(RenderOf(input, engine).doc)
  {
    TrimSpec(input);
  }

  /** Surrounding whitespace never matters: an input and its trimmed form
      render the same way. */
  lemma RenderOfTrimmed(input: string, engine: Engine)
    ensures RenderOf(Trim(input), engine) == RenderOf(input, engine)
  {
    TrimSpec(input);
    TrimSpec(Trim(input));
  }

  /** A file saved by downloadSingleImage. */
  datatype SavedFile = SavedFile(name: string, blob: Blob)

  /** The state of the controller and of the page elements it drives. */
  datatype Page = Page(
    input: string,                // markdownInput.value
    output: Surface,              // the content of this.output
    images: seq<ImageInfo>,       // this.images
    currentFile: Option<FileInfo>,
    fileInput: Option<FileInfo>,  // fileInput.files[0]; clearing fileInput.value empties it
    fileNameShown: bool,          // whether fileNameDisplay is shown
    fileNameText: string,         // the text of fileName
    downloadDisabled: bool,       // downloadImagesBtn.disabled
    notice: Option<Notice>)       // the last toast shown

  /** The catalogue reflects exactly the images of what the output shows. */
  predicate CatalogueMatches(p: Page) {
    p.images == BuildCatalogue(ImgElementsOf(p.output))
  }

  /** The bulk-download button is disabled exactly when there is nothing
      to download. */
  predicate ButtonMatches(p: Page) {
    p.downloadDisabled == (p.images == [])
  }

  /** The page as loaded: the placeholder, no image and no file; the text
      area and the button keep what the page's markup gives them. */
  function InitialPage(initialInput: string, initialDisabled: bool): Page {
    Page(initialInput, Placeholder, [], None, None, false, [], initialDisabled, None)
  }

  /** displayImageList, for the button it enables or disables. */
  function AfterDisplay(p: Page): Page {
    p.(downloadDisabled := p.images == [])
  }

  /** extractImages: the catalogue rebuilt from the output, then shown. */
  function AfterExtract(p: Page): Page {
    AfterDisplay(p.(images := BuildCatalogue(ImgElementsOf(p.output))))
  }

  /** parseMarkdown. */
  function AfterParse(p: Page, engine: Engine): Page {
    match RenderOf(p.input, engine)
    case BlankInput => p.(notice := Some(EmptyInput))
    case EngineError => p.(notice := Some(ParseFailed))
    case RenderOk(doc) => AfterExtract(p.(output := Rendered(doc))).(notice := Some(Parsed))
  }

  /** hideFileName. */
  function AfterHide(p: Page): Page {
    p.(fileNameShown := false, currentFile := None, fileInput := None)
  }

  /** clearContent. */
  function AfterClear(p: Page): Page {
    AfterHide(AfterDisplay(p.(input := [], output := Placeholder, images := []))).(notice := Some(Cleared))
  }

  /** readFile for file, when reading gives contents (None when it fails). */
  function AfterRead(p: Page, file: FileInfo, contents: Option<string>, engine: Engine): Page {
    match contents
    case None => p.(notice := Some(FileReadFailed))
    case Some(text) =>
      AfterParse(p.(input := text, fileNameText := file.name, fileNameShown := true,
                    notice := Some(FileLoaded(file.name))), engine)
  }

  /** handleFileUpload for the file in the file control. */
  function AfterUpload(p: Page, contents: Option<string>, engine: Engine): Page {
    match p.fileInput
    case None => p
    case Some(file) =>
      match CheckUpload(file)
      case UnsupportedType => p.(notice := Some(UnsupportedFile), fileInput := None)
      case TooLarge => p.(notice := Some(FileTooLarge), fileInput := None)
      case Accepted => AfterRead(p.(currentFile := Some(file)), file, contents, engine)
  }

  /** What downloadImages leaves behind: the button enabled again after a
      bulk download, and the toast for its outcome. */
  function AfterDownload(p: Page, archiveOk: bool): Page {
    if p.images == [] then p.(notice := Some(NoImagesToDownload))
    else p.(downloadDisabled := false,
            notice := Some(if archiveOk then ImagesDownloaded(|p.images|) else BulkDownloadFailed))
  }

  /** The toast downloadSingleImage ends with. */
  function SingleNotice(p: Page, index: int, fetched: Option<Blob>): Notice {
    if !(0 <= index < |p.images|) then ImageMissing
    else match fetched
      case None => ImageFetchFailed
      case Some(_) => ImageSaved(ExportStem(p.images[index].alt, index))
  }

  /** A rebuilt catalogue always matches the output, one record per image
      in document order, and the button follows. */
  lemma ExtractMatches(p: Page)
    ensures ButtonMatches(AfterDisplay(p))
    ensures CatalogueMatches(AfterExtract(p)) && ButtonMatches(AfterExtract(p))
    ensures |AfterExtract(p).images| == |ImgElementsOf(p.output)|
    ensures forall k :: 0 <= k < |ImgElementsOf(p.output)| ==>
              AfterExtract(p).images[k] == Record(ImgElementsOf(p.output)[k], k)
  {
    forall k | 0 <= k < |ImgElementsOf(p.output)|
      ensures AfterExtract(p).images[k] == Record(ImgElementsOf(p.output)[k], k)
    {
      CatalogueAt(ImgElementsOf(p.output), k);
    }
  }

  /** Parsing keeps both page invariants, establishes them when it renders,
      and never touches the text area or the file state. */
  lemma ParseKeepsInvariants(p: Page, engine: Engine)
    ensures CatalogueMatches(p) ==> CatalogueMatches(AfterParse(p, engine))
    ensures ButtonMatches(p) ==> ButtonMatches(AfterParse(p, engine))
    ensures AfterParse(p, engine).notice == Some(Parsed) ==>
              CatalogueMatches(AfterParse(p, engine)) && ButtonMatches(AfterParse(p, engine))
    ensures var q := AfterParse(p, engine);
            q.input == p.input && q.currentFile == p.currentFile && q.fileInput == p.fileInput
            && q.fileNameShown == p.fileNameShown && q.fileNameText == p.fileNameText
  {
    match RenderOf(p.input, engine)
    case BlankInput =>
    case EngineError =>
    case RenderOk(doc) =>
      ExtractMatches(p.(output := Rendered(doc)));
  }

  /** The toast of a parse tells its three outcomes apart; the output is
      replaced exactly when the trimmed input is not blank and the engine
      accepts it, and otherwise the earlier rendering stays. */
  lemma ParseOutcome(p: Page, engine: Engine)
    ensures AfterParse(p, engine).notice == Some(EmptyInput) <==> AllWhitespace(p.input)
    ensures AfterParse(p, engine).notice == Some(ParseFailed) <==>
              !AllWhitespace(p.input) && engine(Trim(p.input)).None?
    ensures AfterParse(p, engine).notice == Some(Parsed) <==>
              !AllWhitespace(p.input) && engine(Trim(p.input)).Some?
    ensures AfterParse(p, engine).notice == Some(Parsed) ==>
              AfterParse(p, engine).output == Rendered(engine(Trim(p.input)).value)
    ensures AfterParse(p, engine).notice != Some(Parsed) ==>
              AfterParse(p, engine).output == p.output && AfterParse(p, engine).images == p.images
              && AfterParse(p, engine).downloadDisabled == p.downloadDisabled
  {
    RenderOfCases(p.input, engine);
  }

  /** Parsing again changes nothing. */
  lemma ParseIdempotent(p: Page, engine: Engine)
    ensures AfterParse(AfterParse(p, engine), engine) == AfterParse(p, engine)
  {
    ParseKeepsInvariants(p, engine);
    assert RenderOf(AfterParse(p, engine).input, engine) == RenderOf(p.input, engine);
  }

  /** After clearing, the page is back to an empty state that satisfies
      both invariants, and parsing it only reports the empty input. */
  lemma ClearResets(p: Page, engine: Engine)
    ensures CatalogueMatches(AfterClear(p)) && ButtonMatches(AfterClear(p))
    ensures AfterClear(p).input == [] && AfterClear(p).output == Placeholder
    ensures AfterClear(p).images == [] && AfterClear(p).downloadDisabled
    ensures AfterClear(p).currentFile == None && AfterClear(p).fileInput == None && !AfterClear(p).fileNameShown
    ensures AfterParse(AfterClear(p), engine) == AfterClear(p).(notice := Some(EmptyInput))
  {
    assert AllWhitespace(AfterClear(p).input);
    RenderOfCases(AfterClear(p).input, engine);
  }

  /** Loading a file keeps both invariants. */
  lemma UploadKeepsInvariants(p: Page, contents: Option<string>, engine: Engine)
    ensures CatalogueMatches(p) ==> CatalogueMatches(AfterUpload(p, contents, engine))
    ensures ButtonMatches(p) ==> ButtonMatches(AfterUpload(p, contents, engine))
  {
    match p.fileInput
    case None =>
    case Some(file) =>
      match contents
      case None =>
      case Some(text) =>
        var r := p.(currentFile := Some(file), input := text, fileNameText := file.name,
                    fileNameShown := true, notice := Some(FileLoaded(file.name)));
        ParseKeepsInvariants(r, engine);
  }

  /** A rejected file leaves the page's content alone and only empties the
      file control; an accepted one becomes the loaded file, and when it
      reads, its text replaces the input and its name is shown. */
  lemma UploadOutcome(p: Page, contents: Option<string>, engine: Engine)
    ensures p.fileInput.Some? && CheckUpload(p.fileInput.value) != Accepted ==>
              AfterUpload(p, contents, engine) == p.(fileInput := None, notice := AfterUpload(p, contents, engine).notice)
    ensures p.fileInput.Some? && CheckUpload(p.fileInput.value) == Accepted ==>
              AfterUpload(p, contents, engine).currentFile == p.fileInput
              && AfterUpload(p, contents, engine).fileInput == p.fileInput
    ensures p.fileInput.Some? && CheckUpload(p.fileInput.value) == Accepted && contents.Some? ==>
              var q := AfterUpload(p, contents, engine);
              q.input == contents.value && q.fileNameShown && q.fileNameText == p.fileInput.value.name
    ensures p.fileInput.Some? && CheckUpload(p.fileInput.value) == Accepted && contents.None? ==>
              AfterUpload(p, contents, engine) == p.(currentFile := p.fileInput, notice := Some(FileReadFailed))
  {
    if p.fileInput.Some? && CheckUpload(p.fileInput.value) == Accepted && contents.Some? {
      var file := p.fileInput.value;
      var r := p.(currentFile := Some(file), input := contents.value, fileNameText := file.name,
                  fileNameShown := true, notice := Some(FileLoaded(file.name)));
      ParseKeepsInvariants(r, engine);
    }
  }

  /** A file that loads is rendered already: parsing again changes nothing. */
  lemma UploadThenParse(p: Page, contents: Option<string>, engine: Engine)
    requires p.fileInput.Some? && CheckUpload(p.fileInput.value) == Accepted && contents.Some?
    ensures AfterParse(AfterUpload(p, contents, engine), engine) == AfterUpload(p, contents, engine)
  {
    var file := p.fileInput.value;
    var r := p.(currentFile := Some(file), input := contents.value, fileNameText := file.name,
                fileNameShown := true, notice := Some(FileLoaded(file.name)));
    ParseIdempotent(r, engine);
  }

  /** A bulk download keeps the button in step with the catalogue, and
      changes nothing but the button and the toast. */
  lemma DownloadKeepsInvariants(p: Page, archiveOk: bool)
    ensures ButtonMatches(p) ==> ButtonMatches(AfterDownload(p, archiveOk))
    ensures p.images != [] ==> ButtonMatches(AfterDownload(p, archiveOk))
    ensures AfterDownload(p, archiveOk).(downloadDisabled := p.downloadDisabled, notice := p.notice) == p
  {
  }

  class MarkdownParser {
    var input: string
    var output: Surface
    var images: seq<ImageInfo>
    var currentFile: Option<FileInfo>
    var fileInput: Option<FileInfo>
    var fileNameShown: bool
    var fileNameText: string
    var downloadDisabled: bool
    var notice: Option<Notice>

    /** The controller's fields, as a Page. */
    function Snapshot(): Page
      reads this
    {
      Page(input, output, images, currentFile, fileInput, fileNameShown, fileNameText,
           downloadDisabled, notice)
    }

    /** The page as loaded. */
    constructor (initialInput: string, initialDisabled: bool)
      ensures Snapshot() == InitialPage(initialInput, initialDisabled)
      ensures CatalogueMatches(Snapshot())
    {
      input := initialInput;
      output := Placeholder;
      images := [];
      currentFile := None;
      fileInput := None;
      fileNameShown := false;
      fileNameText := [];
      downloadDisabled := initialDisabled;
      notice := None;
    }

    /** `parseMarkdown()`. */
    method ParseMarkdown(engine: Engine)
      modifies this
      ensures Snapshot() == AfterParse(old(Snapshot()), engine)
    {
      var markdownText := Trim(input);
      if markdownText == [] {
        notice := Some(EmptyInput);
        return;
      }
      match engine(markdownText)
      case None =>
        notice := Some(ParseFailed);
      case Some(doc) =>
        output := Rendered(doc);
        ExtractImages();
        notice := Some(Parsed);
    }

    /** `extractImages()`: the catalogue is rebuilt from scratch, one record
        per image of the output, in document order. */
    method ExtractImages()
      modifies this
      ensures Snapshot() == AfterExtract(old(Snapshot()))
    {
      var elems := ImgElementsOf(output);
      images := [];
      for index := 0 to |elems|
        invariant images == BuildCatalogue(elems[..index])
        invariant Snapshot() == old(Snapshot()).(images := images)
      {
        assert elems[..index + 1][..index] == elems[..index];
        images := images + [Record(elems[index], index)];
      }
      assert elems[..|elems|] == elems;
      DisplayImageList();
    }

    /** `displayImageList()`, for the button it enables or disables. */
    method DisplayImageList()
      modifies this
      ensures Snapshot() == AfterDisplay(old(Snapshot()))
    {
      if |images| == 0 {
        downloadDisabled := true;
        return;
      }
      downloadDisabled := false;
    }

    /** `clearContent()`. */
    method ClearContent()
      modifies this
      ensures Snapshot() == AfterClear(old(Snapshot()))
    {
      input := [];
      output := Placeholder;
      images := [];
      DisplayImageList();
      HideFileName();
      notice := Some(Cleared);
    }

    /** `showFileName(name)`. */
    method ShowFileName(name: string)
      modifies this
      ensures Snapshot() == old(Snapshot()).(fileNameText := name, fileNameShown := true)
    {
      fileNameText := name;
      fileNameShown := true;
    }

    /** `hideFileName()`: forgets the loaded file and empties the file control. */
    method HideFileName()
      modifies this
      ensures Snapshot() == AfterHide(old(Snapshot()))
    {
      fileNameShown := false;
      currentFile := None;
      fileInput := None;
    }

    /** `handleFileUpload(event)` after the user chose `chosen` in the file
        control (None when the choice was cancelled); `contents` is what
        reading it gives (None when the read fails). */
    method HandleFileUpload(chosen: Option<FileInfo>, contents: Option<string>, engine: Engine)
      modifies this
      ensures Snapshot() == AfterUpload(old(Snapshot()).(fileInput := chosen), contents, engine)
    {
      fileInput := chosen;
      var file := fileInput;
      if file.None? {
        return;
      }
      var verdict := CheckUpload(file.value);
      if verdict == UnsupportedType {
        notice := Some(UnsupportedFile);
        fileInput := None;
        return;
      }
      if verdict == TooLarge {
        notice := Some(FileTooLarge);
        fileInput := None;
        return;
      }
      currentFile := file;
      ReadFile(file.value, contents, engine);
    }

    /** `readFile(file)`, with the reader's outcome given as contents. */
    method ReadFile(file: FileInfo, contents: Option<string>, engine: Engine)
      modifies this
      ensures Snapshot() == AfterRead(old(Snapshot()), file, contents, engine)
    {
      match contents
      case None =>
        notice := Some(FileReadFailed);
      case Some(text) =>
        input := text;
        ShowFileName(file.name);
        notice := Some(FileLoaded(file.name));
        ParseMarkdown(engine);
    }

    /** The forEach of downloadImages: every image is fetched, and each
        fetch that gives a blob adds one archive entry under the image's
        export name, in catalogue order. Returns the URLs fetched and the
        entries. */
    method CollectEntries(fetched: seq<Option<Blob>>, pathnameOf: string -> Option<string>)
      returns (requests: seq<string>, zip: map<string, Blob>)
      requires |fetched| == |images|
      ensures requests == Sources(images)
      ensures zip == ZipEntries(images, fetched, pathnameOf)
    {
      requests := Sources(images);
      ghost var names := EntryNames(images, pathnameOf);
      zip := map[];
      for index := 0 to |images|
        invariant zip == Collect(names[..index], fetched[..index])
      {
        CollectStep(names, fetched, index);
        match fetched[index]
        case Some(blob) =>
          var filename := EntryName(images[index], index, pathnameOf);
          zip := zip[filename := blob];
        case None =>
      }
      assert names[..|images|] == names && fetched[..|images|] == fetched;
    }

    /** `downloadImages()`. `fetched` holds what fetchImageAsBlob gives for
        each image, `pathnameOf` what `new URL(src).pathname` gives, and
        `archiveOk` whether generating the archive succeeds. Returns the URLs
        fetched and the archive handed to the user. */
    method DownloadImages(fetched: seq<Option<Blob>>, pathnameOf: string -> Option<string>, archiveOk: bool)
      returns (requests: seq<string>, archive: Option<map<string, Blob>>)
      requires |fetched| == |images|
      modifies this
      ensures Snapshot() == AfterDownload(old(Snapshot()), archiveOk)
      // nothing to download: no fetch at all
      ensures images == [] ==> requests == [] && archive == None
      // otherwise every image is fetched once
      ensures images != [] ==> requests == Sources(images)
      ensures images != [] && archiveOk ==> archive == Some(ZipEntries(images, fetched, pathnameOf))
      ensures images != [] && !archiveOk ==> archive == None
    {
      if |images| == 0 {
        notice := Some(NoImagesToDownload);
        return [], None;
      }
      notice := Some(DownloadingImages);
      downloadDisabled := true;
      var zip;
      requests, zip := CollectEntries(fetched, pathnameOf);
      if archiveOk {
        archive := Some(zip);
        notice := Some(ImagesDownloaded(|images|));
      } else {
        archive := None;
        notice := Some(BulkDownloadFailed);
      }
      downloadDisabled := false;
    }

    /** `downloadSingleImage(index)`. `fetched` is what fetchImageAsBlob
        gives for the image. Returns the URLs fetched and the file saved. */
    method DownloadSingleImage(index: int, fetched: Option<Blob>, pathnameOf: string -> Option<string>)
      returns (requests: seq<string>, saved: Option<SavedFile>)
      modifies this
      ensures Snapshot() == old(Snapshot()).(notice := Some(SingleNotice(old(Snapshot()), index, fetched)))
      // no image at that index: nothing is fetched
      ensures !(0 <= index < |images|) ==> requests == [] && saved == None
      ensures 0 <= index < |images| ==> requests == [images[index].src]
      ensures 0 <= index < |images| && fetched.None? ==> saved == None
      ensures 0 <= index < |images| && fetched.Some? ==>
                saved == Some(SavedFile(EntryName(images[index], index, pathnameOf), fetched.value))
    {
      if !(0 <= index < |images|) {
        notice := Some(ImageMissing);
        return [], None;
      }
      var img := images[index];
      requests := [img.src];
      match fetched
      case None =>
        notice := Some(ImageFetchFailed);
        saved := None;
      case Some(blob) =>
        var extension := ImageExtension(pathnameOf(img.src));
        var filename := ExportStem(img.alt, index);
        saved := Some(SavedFile(filename + "." + extension, blob));
        notice := Some(ImageSaved(filename));
    }
  }
}
