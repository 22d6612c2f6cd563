/** The "Add Source" sheet: classifying an uploaded file by its extension,
    deriving titles and word counts, and the three ways of adding a source
    (files, a link, pasted text). Identifiers, timestamps and the random
    numbers the sheet draws are parameters; the delays it waits through are
    not modelled, and the callback that fires after processing is a separate
    method. */
module SourceUploader {
  import opened Wrappers
  import opened Strings
  import opened Types
  import Seqs

  // ---------------------------------------------------------------------
  // File type and title
  // ---------------------------------------------------------------------

  const OfficeExtensions: seq<string> := ["pdf", "doc", "docx", "ppt", "pptx", "xls", "xlsx"]
  const AudioExtensions: seq<string> := ["mp3", "wav", "m4a", "aac"]
  const ImageExtensions: seq<string> := ["jpg", "jpeg", "png", "gif"]

  /** `file.name.split('.').pop()?.toLowerCase()`: the text after the last
      dot, lower-cased; a name without a dot is its own extension. (`pop` on
      the result of `split` never yields `undefined`.) */
  function Extension(name: string): (ext: string)
    ensures '.' !in ext
  {
    Lower(LastSegment(name, '.'))
  }

  /** The extension is read after the last dot, whatever comes before it. */
  lemma ExtensionAfterDot(base: string, ext: string)
    requires '.' !in ext
    ensures Extension(base + "." + ext) == Lower(ext)
  {
    assert base + "." + ext == base + ['.'] + ext;
    LastSegmentAfter(base, '.', ext);
  }

  /** A name without a dot is its own extension. */
  lemma ExtensionWithoutDot(name: string)
    requires '.' !in name
    ensures Extension(name) == Lower(name)
  {
  }

  /** `getFileType` on an extension: PDFs and office files, audio
      recordings, images (sent to character recognition as documents), and
      text for everything else. */
  function ExtensionKind(ext: string): (k: SourceType)
    ensures k == Pdf <==> ext == "pdf"
    ensures k == Document <==> (ext in OfficeExtensions && ext != "pdf") || ext in ImageExtensions
    ensures k == Audio <==> ext in AudioExtensions
    ensures k == PlainText <==>
              ext !in OfficeExtensions && ext !in AudioExtensions && ext !in ImageExtensions
    ensures k != Url && k != Youtube
  {
    if ext in OfficeExtensions then (if ext == "pdf" then Pdf else Document)
    else if ext in AudioExtensions then Audio
    else if ext in ImageExtensions then Document
    else PlainText
  }

  function FileKind(name: string): SourceType {
    ExtensionKind(Extension(name))
  }

  /** The type depends only on the lower-cased text after the last dot. */
  lemma FileKindByExtension(base: string, ext: string)
    requires '.' !in ext
    ensures FileKind(base + "." + ext) == ExtensionKind(Lower(ext))
  {
    ExtensionAfterDot(base, ext);
  }

  /** Upper-case extensions are recognised like lower-case ones. */
  lemma UpperCasePdf(base: string)
    ensures FileKind(base + ".PDF") == Pdf
  {
    FileKindByExtension(base, "PDF");
    assert base + ".PDF" == base + "." + "PDF";
    assert Lower("PDF") == "pdf";
  }

  /** `name.replace(/\.[^/.]+$/, '')`: a final dot followed by one or more
      characters that are neither `.` nor `/` is removed with them. */
  function FileTitle(name: string): (title: string)
    ensures title <= name
  {
    var ext := LastSegment(name, '.');
    if |ext| < |name| && ext != [] && '/' !in ext then name[..|name| - |ext| - 1]
    else name
  }

  /** A final extension is dropped. */
  lemma FileTitleDropsExtension(base: string, ext: string)
    requires ext != [] && '.' !in ext && '/' !in ext
    ensures FileTitle(base + "." + ext) == base
  {
    var name := base + "." + ext;
    assert name == base + ['.'] + ext;
    LastSegmentAfter(base, '.', ext);
    assert name[..|name| - |ext| - 1] == base;
  }

  /** The name is kept whole when what follows its last dot is empty or
      contains a `/`, and when it has no dot at all. */
  lemma FileTitleKeepsName(base: string, ext: string)
    requires '.' !in ext && (ext == [] || '/' in ext)
    ensures FileTitle(base + "." + ext) == base + "." + ext
  {
    assert base + "." + ext == base + ['.'] + ext;
    LastSegmentAfter(base, '.', ext);
  }

  lemma FileTitleWithoutDot(name: string)
    requires '.' !in name
    ensures FileTitle(name) == name
  {
  }

  // ---------------------------------------------------------------------
  // Links
  // ---------------------------------------------------------------------

  const YoutubeHost := "youtube.com"
  const YoutubeShortHost := "youtu.be"
  const WebsiteFallback := "Website Link"
  const WwwPrefix := "www."

  /** A link is a video exactly when it mentions either video host. */
  function UrlKind(url: string): (k: SourceType)
    ensures k == Youtube <==>
              exists i: nat :: OccursAt(url, YoutubeHost, i) || OccursAt(url, YoutubeShortHost, i)
    ensures k != Youtube ==> k == Url
  {
    if Contains(url, YoutubeHost) || Contains(url, YoutubeShortHost) then Youtube else Url
  }

  /** Any text around a short video link still makes a video source. */
  lemma ShortLinkIsVideo(before: string, after: string)
    ensures UrlKind(before + YoutubeShortHost + after) == Youtube
  {
    var url := before + YoutubeShortHost + after;
    assert url[|before|..|before| + |YoutubeShortHost|] == YoutubeShortHost;
    assert OccursAt(url, YoutubeShortHost, |before|);
  }

  /** `extractTitleFromUrl`, given the host name the browser parsed (`None`
      when the text is not a URL): the host without its first `www.`. */
  function UrlTitle(host: Option<string>): (title: string)
    ensures host.None? ==> title == WebsiteFallback
    ensures host.Some? && !Contains(host.value, WwwPrefix) ==> title == host.value
    ensures host.Some? && Contains(host.value, WwwPrefix) ==>
              exists i: nat :: OccursAt(host.value, WwwPrefix, i)
                && (forall j: nat :: j < i ==> !OccursAt(host.value, WwwPrefix, j))
                && title == host.value[..i] + host.value[i + |WwwPrefix|..]
  {
    match host
    case None => WebsiteFallback
    case Some(h) => RemoveFirst(h, WwwPrefix)
  }

  lemma WwwIsDropped(h: string)
    ensures UrlTitle(Some(WwwPrefix + h)) == h
  {
    assert (WwwPrefix + h)[..|WwwPrefix|] == WwwPrefix;
  }

  // ---------------------------------------------------------------------
  // Pasted text
  // ---------------------------------------------------------------------

  const TitleLength := 50
  const Ellipsis := "..."

  /** `text.split('\n')[0].substring(0, 50) + '...'`. */
  function TextTitle(text: string): (title: string)
    ensures TitleLength + |Ellipsis| >= |title| >= |Ellipsis|
    ensures title[|title| - |Ellipsis|..] == Ellipsis
  {
    var line := Split(text, '\n')[0];
    var n := if |line| < TitleLength then |line| else TitleLength;
    line[..n] + Ellipsis
  }

  /** Before the ellipsis, the title is the first line of the text, cut
      after 50 characters. */
  lemma TextTitleIsFirstLine(text: string)
    ensures var head := TextTitle(text)[..|TextTitle(text)| - |Ellipsis|];
            head <= text && '\n' !in head &&
            (|head| == TitleLength || |head| == |text| || text[|head|] == '\n')
  {
    SplitFirst(text, '\n');
    var line := Split(text, '\n')[0];
    var n := if |line| < TitleLength then |line| else TitleLength;
    assert TextTitle(text)[..|TextTitle(text)| - |Ellipsis|] == line[..n];
  }

  predicate NonEmpty(word: string) { word != [] }

  /** `text.split(/\s+/).length`, the count stored with the source: empty
      pieces at either end are counted too. */
  function StoredWordCount(text: string): (n: nat)
    ensures n >= 1
  {
    |SplitSpaces(text)|
  }

  /** `text.split(/\s+/).filter(word => word.length > 0).length`, the count
      shown under the text box. */
  function DisplayedWordCount(text: string): (n: nat)
    ensures n <= StoredWordCount(text)
  {
    |Seqs.Filter(NonEmpty, SplitSpaces(text))|
  }

  /** The shown count counts words: the pieces it counts are non-empty and
      free of whitespace, and together they spell the text with its
      whitespace removed. */
  lemma ShownWords(text: string)
    ensures var ws := Seqs.Filter(NonEmpty, SplitSpaces(text));
      |ws| == DisplayedWordCount(text)
      && (forall k :: 0 <= k < |ws| ==> ws[k] != [] && forall j :: 0 <= j < |ws[k]| ==> !IsSpace(ws[k][j]))
      && Join(ws, "") == Unspaced(text)
  {
    var pieces := SplitSpaces(text);
    var ws := Seqs.Filter(NonEmpty, pieces);
    SplitSpacesNoSpace(text);
    forall k | 0 <= k < |ws|
      ensures ws[k] != [] && forall j :: 0 <= j < |ws[k]| ==> !IsSpace(ws[k][j])
    {
      Seqs.FilterMembers(NonEmpty, pieces, ws[k]);
    }
    SplitSpacesJoin(text);
    JoinSkipsEmpty(pieces);
  }

  /** Leaving out empty pieces does not change their join. */
  lemma {:induction false} JoinSkipsEmpty(xs: seq<string>)
    ensures Join(Seqs.Filter(NonEmpty, xs), "") == Join(xs, "")
    decreases |xs|
  {
    if |xs| != 0 {
      JoinSkipsEmpty(xs[1..]);
      JoinCons(xs[0], xs[1..]);
      if NonEmpty(xs[0]) {
        JoinCons(xs[0], Seqs.Filter(NonEmpty, xs[1..]));
      }
      assert xs == [xs[0]] + xs[1..];
    }
  }

  /** Joining with no separator puts the first piece in front. */
  lemma JoinCons(x: string, rest: seq<string>)
    ensures Join([x] + rest, "") == x + Join(rest, "")
  {
    assert ([x] + rest)[1..] == rest;
  }

  /** The stored count exceeds the shown one by one for leading and one for
      trailing whitespace. */
  lemma WordCounts(text: string)
    requires text != []
    ensures StoredWordCount(text) == DisplayedWordCount(text)
              + (if IsSpace(text[0]) then 1 else 0)
              + (if IsSpace(text[|text| - 1]) then 1 else 0)
  {
    var pieces := SplitSpaces(text);
    SplitSpacesFirst(text);
    SplitSpacesInner(text);
    SplitSpacesLast(text);
    SplitSpacesSingle(text);
    Seqs.FilterEnds(NonEmpty, pieces);
  }

  // ---------------------------------------------------------------------
  // The sources the sheet creates
  // ---------------------------------------------------------------------

  /** `Math.floor(random * span) + base` for a draw `random` in [0, 1). */
  function RandomCount(random: real, span: nat, base: nat): (n: nat)
    requires 0.0 <= random < 1.0
    ensures base <= n < base + span || (span == 0 && n == base)
  {
    (random * span as real).Floor + base
  }

  datatype File = File(name: string, size: nat)

  /** The source announced as soon as a file is uploaded. */
  function UploadedSource(file: File, id: string, createdAt: string): (s: Source)
    ensures s.status == Processing && s.id == id && s.wordCount.None?
  {
    Source(id, FileTitle(file.name), FileKind(file.name), None, Some(file.name), None,
           Processing, createdAt, Some(file.size), None)
  }

  /** The copy announced when processing finishes: ready, with a word
      count, and otherwise the same source. */
  function ProcessedSource(pending: Source, random: real): (s: Source)
    requires 0.0 <= random < 1.0
    ensures s.status == Ready && s.id == pending.id
    ensures s.wordCount.Some? && 1000 <= s.wordCount.value < 11000
    ensures s.(status := pending.status, wordCount := pending.wordCount) == pending
  {
    pending.(status := Ready, wordCount := Some(RandomCount(random, 10000, 1000)))
  }

  /** The source a submitted link becomes. */
  function LinkSource(url: string, id: string, createdAt: string, host: Option<string>,
                      random: real): (s: Source)
    requires 0.0 <= random < 1.0
    ensures s.status == Ready && s.id == id && s.url == Some(url)
    ensures s.kind == UrlKind(url) && s.title == UrlTitle(host)
    ensures s.wordCount.Some? && 500 <= s.wordCount.value < 5500
  {
    Source(id, UrlTitle(host), UrlKind(url), None, None, Some(url), Ready, createdAt, None,
           Some(RandomCount(random, 5000, 500)))
  }

  /** The source pasted text becomes. */
  function TextSource(text: string, id: string, createdAt: string): (s: Source)
    ensures s.status == Ready && s.id == id && s.kind == PlainText
    ensures s.content == Some(text) && s.title == TextTitle(text)
    ensures s.wordCount == Some(StoredWordCount(text))
  {
    Source(id, TextTitle(text), PlainText, Some(text), None, None, Ready, createdAt, None,
           Some(StoredWordCount(text)))
  }

  /** Processing changes a file source's status and nothing the list shows
      about where it came from. */
  lemma UploadThenProcess(file: File, id: string, createdAt: string, random: real)
    requires 0.0 <= random < 1.0
    ensures var pending := UploadedSource(file, id, createdAt);
            var done := ProcessedSource(pending, random);
            done.id == pending.id && done.title == pending.title && done.kind == pending.kind &&
            done.filename == pending.filename && done.size == pending.size &&
            pending.status == Processing && done.status == Ready
  {
  }

  /** The processing sources announced for a batch of files, in order. */
  function Uploads(files: seq<File>, ids: seq<string>, createdAts: seq<string>): (r: seq<Source>)
    requires |ids| == |files| && |createdAts| == |files|
    ensures |r| == |files|
  {
    seq(|files|, k requires 0 <= k < |files| => UploadedSource(files[k], ids[k], createdAts[k]))
  }

  /** Each file of a batch is announced as processing, under its own id and
      with the title and type its name gives. */
  lemma UploadsSpec(files: seq<File>, ids: seq<string>, createdAts: seq<string>, k: nat)
    requires |ids| == |files| && |createdAts| == |files| && k < |files|
    ensures Uploads(files, ids, createdAts)[k].status == Processing
    ensures Uploads(files, ids, createdAts)[k].id == ids[k]
    ensures Uploads(files, ids, createdAts)[k].title == FileTitle(files[k].name)
    ensures Uploads(files, ids, createdAts)[k].kind == FileKind(files[k].name)
  {
  }

  // ---------------------------------------------------------------------
  // The sheet
  // ---------------------------------------------------------------------

  datatype UploadOption = FileUpload | Website | YoutubeVideo | AudioUpload | PastedText | CameraPhoto

  /** The options that open the browser's file picker. */
  predicate OpensFilePicker(option: UploadOption) {
    option == FileUpload || option == AudioUpload || option == CameraPhoto
  }

  class Uploader {
    var selectedOption: Option<UploadOption>
    var isUploading: bool
    var urlInput: string
    var textInput: string
    /** Every source passed to `onSourceAdded`, in order. */
    var announced: seq<Source>

    constructor()
      ensures selectedOption.None? && !isUploading && urlInput == [] && textInput == []
      ensures announced == []
    {
      selectedOption := None;
      isUploading := false;
      urlInput := [];
      textInput := [];
      announced := [];
    }

    /** A submit button is enabled when its input is not blank and nothing is
        being added. */
    predicate CanSubmitUrl()
      reads this
    {
      !IsBlank(urlInput) && !isUploading
    }

    predicate CanSubmitText()
      reads this
    {
      !IsBlank(textInput) && !isUploading
    }

    /** `handleOptionSelect`: reports whether the file picker opens. */
    method SelectOption(option: UploadOption) returns (opensPicker: bool)
      modifies this
      ensures selectedOption == Some(option) && opensPicker == OpensFilePicker(option)
      ensures isUploading == old(isUploading) && urlInput == old(urlInput)
      ensures textInput == old(textInput) && announced == old(announced)
    {
      selectedOption := Some(option);
      opensPicker := option == FileUpload || option == AudioUpload || option == CameraPhoto;
    }

    /** The back button. */
    method Back()
      modifies this
      ensures selectedOption.None?
      ensures isUploading == old(isUploading) && urlInput == old(urlInput)
      ensures textInput == old(textInput) && announced == old(announced)
    {
      selectedOption := None;
    }

    method SetUrlInput(value: string)
      modifies this
      ensures urlInput == value
      ensures selectedOption == old(selectedOption) && isUploading == old(isUploading)
      ensures textInput == old(textInput) && announced == old(announced)
    {
      urlInput := value;
    }

    method SetTextInput(value: string)
      modifies this
      ensures textInput == value
      ensures selectedOption == old(selectedOption) && isUploading == old(isUploading)
      ensures urlInput == old(urlInput) && announced == old(announced)
    {
      textInput := value;
    }

    /** `uploadFile`: announces the file as a processing source. */
    method UploadFile(file: File, id: string, createdAt: string)
      modifies this
      ensures announced == old(announced) + [UploadedSource(file, id, createdAt)]
      ensures selectedOption == old(selectedOption) && isUploading == old(isUploading)
      ensures urlInput == old(urlInput) && textInput == old(textInput)
    {
      announced := announced + [UploadedSource(file, id, createdAt)];
    }

    /** The delayed callback of `uploadFile`: announces the processed copy. */
    method FinishProcessing(pending: Source, random: real)
      requires 0.0 <= random < 1.0
      modifies this
      ensures announced == old(announced) + [ProcessedSource(pending, random)]
      ensures selectedOption == old(selectedOption) && isUploading == old(isUploading)
      ensures urlInput == old(urlInput) && textInput == old(textInput)
    {
      announced := announced + [ProcessedSource(pending, random)];
    }

    /** `handleFileSelect`: with no files nothing happens; otherwise each
        file is announced in turn and the sheet returns to its options. */
    method SelectFiles(files: seq<File>, ids: seq<string>, createdAts: seq<string>)
      requires |ids| == |files| && |createdAts| == |files|
      modifies this
      ensures announced == old(announced) + Uploads(files, ids, createdAts)
      ensures files == [] ==> selectedOption == old(selectedOption) && isUploading == old(isUploading)
      ensures files != [] ==> selectedOption.None? && !isUploading
      ensures urlInput == old(urlInput) && textInput == old(textInput)
    {
      if files == [] {
        return;
      }
      isUploading := true;
      var uploads := Uploads(files, ids, createdAts);
      var i := 0;
      while i < |files|
        invariant 0 <= i <= |files|
        invariant announced == old(announced) + uploads[..i]
        invariant urlInput == old(urlInput) && textInput == old(textInput)
      {
        UploadFile(files[i], ids[i], createdAts[i]);
        Seqs.TakeOneMore(uploads, i);
        i := i + 1;
      }
      Seqs.TakeAll(uploads);
      isUploading := false;
      selectedOption := None;
    }

    /** `handleUrlSubmit`: a blank link is ignored; otherwise the link is
        announced as a ready source, the field is cleared and the sheet
        returns to its options. */
    method SubmitUrl(id: string, createdAt: string, host: Option<string>, random: real)
      returns (added: bool)
      requires 0.0 <= random < 1.0
      modifies this
      ensures added == !IsBlank(old(urlInput))
      ensures !added ==> announced == old(announced) && urlInput == old(urlInput)
                         && selectedOption == old(selectedOption) && isUploading == old(isUploading)
      ensures added ==> announced == old(announced) + [LinkSource(old(urlInput), id, createdAt, host, random)]
                        && urlInput == [] && selectedOption.None? && !isUploading
      ensures textInput == old(textInput)
    {
      if IsBlank(urlInput) {
        return false;
      }
      isUploading := true;
      announced := announced + [LinkSource(urlInput, id, createdAt, host, random)];
      urlInput := [];
      isUploading := false;
      selectedOption := None;
      added := true;
    }

    /** `handleTextSubmit`: blank text is ignored; otherwise the text is
        announced as a ready source, the box is cleared and the sheet
        returns to its options. */
    method SubmitText(id: string, createdAt: string) returns (added: bool)
      modifies this
      ensures added == !IsBlank(old(textInput))
      ensures !added ==> announced == old(announced) && textInput == old(textInput)
                         && selectedOption == old(selectedOption) && isUploading == old(isUploading)
      ensures added ==> announced == old(announced) + [TextSource(old(textInput), id, createdAt)]
                        && textInput == [] && selectedOption.None? && !isUploading
      ensures urlInput == old(urlInput)
    {
      if IsBlank(textInput) {
        return false;
      }
      isUploading := true;
      announced := announced + [TextSource(textInput, id, createdAt)];
      textInput := [];
      isUploading := false;
      selectedOption := None;
      added := true;
    }
  }

  /** Submitted text is never empty, so its stored count is the shown count
      plus the whitespace runs at its ends. */
  lemma SubmittedTextCounts(text: string, id: string, createdAt: string)
    requires !IsBlank(text)
    ensures TextSource(text, id, createdAt).wordCount.value >= DisplayedWordCount(text)
    ensures !IsSpace(text[0]) && !IsSpace(text[|text| - 1]) ==>
              TextSource(text, id, createdAt).wordCount == Some(DisplayedWordCount(text))
  {
    WordCounts(text);
  }
}
