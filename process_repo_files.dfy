/** The chapter scan: the manifest's chapter list, the choice of parse path from the
    file extension, and the walk over `img` elements that records each image's alt
    text and its context (preceding paragraph, succeeding paragraph, caption). */
module ProcessRepoFiles {
  import opened Wrappers
  import opened Strings
  import opened Paths
  import opened Soup
  import opened ImageDicts

  /** `read_atlas_json`, once the manifest is loaded: `files` is the manifest's `files`
      list (None when the key is absent) and `absAtlasPath` the manifest's absolute
      path. No chapters gives None; otherwise each entry is joined onto the
      manifest's directory, in manifest order. */
  function ReadAtlasJson(absAtlasPath: string, files: Option<seq<string>>): (r: Option<seq<string>>)
    ensures r.None? <==> files.None? || files.value == []
    ensures r.Some? ==> |r.value| == |files.value|
    ensures r.Some? ==> forall k :: 0 <= k < |r.value| && !StartsWith(files.value[k], "/") ==>
      StartsWith(r.value[k], DirName(absAtlasPath)) && EndsWith(r.value[k], files.value[k])
    ensures r.Some? ==> forall k :: 0 <= k < |r.value| && StartsWith(files.value[k], "/") ==>
      r.value[k] == files.value[k]
    ensures var d := DirName(absAtlasPath);
      r.Some? ==> forall k :: 0 <= k < |r.value| && !StartsWith(files.value[k], "/") ==>
        r.value[k] == if d != [] && d[|d| - 1] != '/' then d + "/" + files.value[k] else d + files.value[k]
  {
    var projectDir := DirName(absAtlasPath);
    var chapterFiles := seq(|files.GetOr([])|, k requires 0 <= k < |files.GetOr([])| =>
      Join(projectDir, files.GetOr([])[k]));
    if chapterFiles == [] then None else Some(chapterFiles)
  }

  /** The three ways a chapter file can be turned into a tree. */
  datatype ParsePath = ParseHtml | ConvertAsciidoc | Unsupported

  /** The lower-cased `os.path.splitext` extension decides the parse path. */
  function ParsePathFor(filepath: string): ParsePath {
    var ext := Lower(SplitExt(filepath));
    if ext == ".html" then ParseHtml
    else if ext == ".asciidoc" || ext == ".adoc" then ConvertAsciidoc
    else Unsupported
  }

  /** Some character before the last `|w|` characters of `name` is not a dot. */
  predicate StemNotAllDots(name: string, w: string) {
    exists k :: 0 <= k < |name| - |w| && name[k] != '.'
  }

  /** splitext's rule for the extension word `w`: the file name ends with `w` in any
      letter case after a stem that is not all dots. */
  predicate HasSplitExt(filepath: string, w: string) {
    var name := BaseName(filepath);
    |name| > |w| && Lower(name[|name| - |w|..]) == w && StemNotAllDots(name, w)
  }

  /** The dispatch is case-insensitive: HTML files are parsed directly, AsciiDoc files
      (either extension) are converted first, anything else has no parse path. */
  lemma ParsePathByName(filepath: string)
    ensures ParsePathFor(filepath) == ParseHtml <==> HasSplitExt(filepath, ".html")
    ensures ParsePathFor(filepath) == ConvertAsciidoc <==>
      HasSplitExt(filepath, ".asciidoc") || HasSplitExt(filepath, ".adoc")
  {
    HtmlByName(filepath);
    AsciidocByName(filepath);
  }

  lemma HtmlByName(filepath: string)
    ensures ParsePathFor(filepath) == ParseHtml <==> HasSplitExt(filepath, ".html")
  {
    HasSplitExtIff(filepath, ".html");
  }

  lemma AsciidocByName(filepath: string)
    ensures ParsePathFor(filepath) == ConvertAsciidoc <==>
      HasSplitExt(filepath, ".asciidoc") || HasSplitExt(filepath, ".adoc")
  {
    HasSplitExtEither(filepath, ".asciidoc", ".adoc");
  }

  /** The lowered extension is `w` exactly when the file is named with `w`. */
  lemma HasSplitExtIff(filepath: string, w: string)
    requires ExtWord(w)
    ensures Lower(SplitExt(filepath)) == w <==> HasSplitExt(filepath, w)
  {
    SplitExtIs(filepath, w);
  }

  /** The lowered extension is one of two words exactly when the file is named with
      one of them. */
  lemma HasSplitExtEither(filepath: string, a: string, b: string)
    requires ExtWord(a) && ExtWord(b)
    ensures var ext := Lower(SplitExt(filepath));
      ext == a || ext == b <==> HasSplitExt(filepath, a) || HasSplitExt(filepath, b)
  {
    HasSplitExtIff(filepath, a);
    HasSplitExtIff(filepath, b);
  }

  /** What the scan records about one image's surroundings. */
  datatype Context = Context(preceding: string, succeeding: string, caption: string)

  /** The image's parent is a `figure` element. */
  predicate InFigure(doc: Document, i: nat)
    requires WellFormed(doc) && i < |doc|
  {
    doc[i].parent.Some? && doc[doc[i].parent.value].tag == "figure"
  }

  /** Where the paragraph searches start: the figure for an image inside one, otherwise
      the image itself. */
  function Anchor(doc: Document, i: nat): (a: nat)
    requires WellFormed(doc) && i < |doc|
    ensures a <= i
  {
    if InFigure(doc, i) then doc[i].parent.value else i
  }

  /** `t` is the text of the nearest `p` before `anchor`, or empty when there is none. */
  ghost predicate IsPrecedingText(doc: Document, anchor: nat, t: string)
    requires anchor <= |doc|
  {
    || (exists j :: 0 <= j < anchor && doc[j].tag == "p" && t == doc[j].text
          && forall k :: j < k < anchor ==> doc[k].tag != "p")
    || (t == "" && forall k :: 0 <= k < anchor ==> doc[k].tag != "p")
  }

  /** `t` is the text of the nearest `p` after `anchor` (possibly inside it), or empty. */
  ghost predicate IsSucceedingText(doc: Document, anchor: nat, t: string)
    requires anchor < |doc|
  {
    || (exists j :: anchor < j < |doc| && doc[j].tag == "p" && t == doc[j].text
          && forall k :: anchor < k < j ==> doc[k].tag != "p")
    || (t == "" && forall k :: anchor < k < |doc| ==> doc[k].tag != "p")
  }

  /** `root` has a descendant named `tag`. */
  ghost predicate HasDescendant(doc: Document, root: nat, tag: string) {
    exists j :: 0 <= j < |doc| && IsDescendant(doc, j, root) && doc[j].tag == tag
  }

  /** `t` is the text of the first descendant of `root` named `tag`. */
  ghost predicate IsFirstDescendantText(doc: Document, root: nat, tag: string, t: string) {
    exists j :: 0 <= j < |doc| && IsDescendant(doc, j, root) && doc[j].tag == tag && t == doc[j].text
      && forall k :: 0 <= k < j && IsDescendant(doc, k, root) ==> doc[k].tag != tag
  }

  /** The caption of a figure: its first `figcaption`, failing that its first `caption`,
      failing that empty. */
  ghost predicate IsFigureCaption(doc: Document, f: nat, t: string) {
    if HasDescendant(doc, f, "figcaption") then IsFirstDescendantText(doc, f, "figcaption", t)
    else if HasDescendant(doc, f, "caption") then IsFirstDescendantText(doc, f, "caption", t)
    else t == ""
  }

  /** The text of `find_previous('p')` is the nearest earlier paragraph's text, or empty. */
  lemma PrecedingTextOf(doc: Document, anchor: nat)
    requires anchor <= |doc|
    ensures IsPrecedingText(doc, anchor, TextOf(doc, FindPrevious(doc, anchor, "p")))
  {
  }

  /** The text of `find_next('p')` is the nearest later paragraph's text, or empty. */
  lemma SucceedingTextOf(doc: Document, anchor: nat)
    requires anchor < |doc|
    ensures IsSucceedingText(doc, anchor, TextOf(doc, FindNext(doc, anchor, "p")))
  {
  }

  /** When `root` has a descendant named `tag`, `find(tag)` finds the first one. */
  lemma FirstDescendantTextOf(doc: Document, root: nat, tag: string)
    requires root < |doc|
    requires HasDescendant(doc, root, tag)
    ensures Find(doc, root, tag).Some?
    ensures IsFirstDescendantText(doc, root, tag, TextOf(doc, Find(doc, root, tag)))
  {
  }

  /** The context recorded for the image at `i` (`ContextOfSpec` states it). */
  function ContextOf(doc: Document, i: nat): Context
    requires WellFormed(doc) && i < |doc|
  {
    var anchor := Anchor(doc, i);
    var caption :=
      if !InFigure(doc, i) then ""
      else
        var f := doc[i].parent.value;
        var figcaption := Find(doc, f, "figcaption");
        if figcaption.Some? then TextOf(doc, figcaption) else TextOf(doc, Find(doc, f, "caption"));
    Context(TextOf(doc, FindPrevious(doc, anchor, "p")), TextOf(doc, FindNext(doc, anchor, "p")), caption)
  }

  /** The context of an image directly inside a figure: the paragraphs around the
      figure and the figure's caption; of any other image: the paragraphs around the
      image itself and no caption. Texts are taken whole, untrimmed; a missing element
      gives the empty string. */
  lemma ContextOfSpec(doc: Document, i: nat)
    requires WellFormed(doc) && i < |doc|
    ensures IsPrecedingText(doc, Anchor(doc, i), ContextOf(doc, i).preceding)
    ensures IsSucceedingText(doc, Anchor(doc, i), ContextOf(doc, i).succeeding)
    ensures InFigure(doc, i) ==> IsFigureCaption(doc, doc[i].parent.value, ContextOf(doc, i).caption)
    ensures !InFigure(doc, i) ==> ContextOf(doc, i).caption == ""
  {
    var anchor := Anchor(doc, i);
    PrecedingTextOf(doc, anchor);
    SucceedingTextOf(doc, anchor);
    if InFigure(doc, i) {
      var f := doc[i].parent.value;
      if HasDescendant(doc, f, "figcaption") {
        FirstDescendantTextOf(doc, f, "figcaption");
      } else {
        assert Find(doc, f, "figcaption").None?;
        if HasDescendant(doc, f, "caption") {
          FirstDescendantTextOf(doc, f, "caption");
        }
      }
    }
  }

  /** `img_elem.get('src') is not None`. */
  predicate HasSrc(doc: Document, i: nat)
    requires i < |doc|
  {
    "src" in doc[i].attrs
  }

  /** `img_elem.get('alt', '')`. */
  function AltText(doc: Document, i: nat): string
    requires i < |doc|
  {
    if "alt" in doc[i].attrs then doc[i].attrs["alt"] else ""
  }

  /** The record the scan appends for the image at `i`. */
  function ImageRecord(filepath: string, doc: Document, i: nat): (r: ImageDict)
    requires WellFormed(doc) && i < |doc| && HasSrc(doc, i)
    ensures r.Keys == {"filepath", "image_path", "preceding_para_text", "succeeding_para_text",
                       "caption_text", "original_alt_text"}
    ensures && r["filepath"] == filepath && r["image_path"] == doc[i].attrs["src"]
            && r["original_alt_text"] == AltText(doc, i)
            && r["preceding_para_text"] == ContextOf(doc, i).preceding
            && r["succeeding_para_text"] == ContextOf(doc, i).succeeding
            && r["caption_text"] == ContextOf(doc, i).caption
  {
    var c := ContextOf(doc, i);
    map[
      "filepath" := filepath,
      "image_path" := doc[i].attrs["src"],
      "preceding_para_text" := c.preceding,
      "succeeding_para_text" := c.succeeding,
      "caption_text" := c.caption,
      "original_alt_text" := AltText(doc, i)]
  }

  predicate ValidIndices(doc: Document, idxs: seq<nat>) {
    forall k :: 0 <= k < |idxs| ==> idxs[k] < |doc|
  }

  /** The records for the images at `imgs`, skipping those without a `src`. */
  function Records(filepath: string, doc: Document, imgs: seq<nat>): seq<ImageDict>
    requires WellFormed(doc) && ValidIndices(doc, imgs)
  {
    if imgs == [] then []
    else
      var last := imgs[|imgs| - 1];
      Records(filepath, doc, imgs[..|imgs| - 1])
        + (if HasSrc(doc, last) then [ImageRecord(filepath, doc, last)] else [])
  }

  /** The indices among `imgs` whose element has a `src`, in the same order. */
  function KeepSrc(doc: Document, imgs: seq<nat>): (r: seq<nat>)
    requires ValidIndices(doc, imgs)
    ensures |r| <= |imgs| && ValidIndices(doc, r)
    ensures forall j :: j in r <==> j in imgs && HasSrc(doc, j)
  {
    if imgs == [] then []
    else
      var last := imgs[|imgs| - 1];
      var front := KeepSrc(doc, imgs[..|imgs| - 1]);
      assert forall j :: j in imgs <==> j in imgs[..|imgs| - 1] || j == last;
      front + (if HasSrc(doc, last) then [last] else [])
  }

  lemma {:induction false} KeepSrcSorted(doc: Document, imgs: seq<nat>)
    requires ValidIndices(doc, imgs)
    requires forall k, l :: 0 <= k < l < |imgs| ==> imgs[k] < imgs[l]
    ensures forall k, l :: 0 <= k < l < |KeepSrc(doc, imgs)| ==> KeepSrc(doc, imgs)[k] < KeepSrc(doc, imgs)[l]
  {
    if imgs != [] {
      var last := imgs[|imgs| - 1];
      var front := imgs[..|imgs| - 1];
      KeepSrcSorted(doc, front);
      var r := KeepSrc(doc, front);
      forall k | 0 <= k < |r| ensures r[k] < last {
        assert r[k] in front;
      }
      assert KeepSrc(doc, imgs) == r + (if HasSrc(doc, last) then [last] else []);
    }
  }

  /** The images the scan keeps: every `img` element with a `src`, in document order. */
  function KeptImages(doc: Document): (r: seq<nat>)
    ensures ValidIndices(doc, r)
    ensures forall k, l :: 0 <= k < l < |r| ==> r[k] < r[l]
    ensures forall j :: j in r <==> 0 <= j < |doc| && doc[j].tag == "img" && HasSrc(doc, j)
    ensures |r| <= |FindAll(doc, "img")|
  {
    KeepSrcSorted(doc, FindAll(doc, "img"));
    KeepSrc(doc, FindAll(doc, "img"))
  }

  /** The records of a successful scan of the tree `doc`. */
  function ScanSpec(filepath: string, doc: Document): seq<ImageDict>
    requires WellFormed(doc)
  {
    Records(filepath, doc, FindAll(doc, "img"))
  }

  /** Why a chapter yields no records. */
  datatype ScanError =
    | ConversionFailed(message: string)  // the AsciiDoc conversion raised
    | NoParsedDocument(extension: string) // unsupported extension: `soup` is never bound

  /** The outcome of scanning `filepath`, given what parsing it as HTML yields and what
      converting it from AsciiDoc yields. */
  function ScanResult(filepath: string, htmlDoc: Document, converted: Result<Document, string>): Result<seq<ImageDict>, ScanError>
    requires WellFormed(htmlDoc) && (converted.Ok? ==> WellFormed(converted.value))
  {
    match ParsePathFor(filepath)
    case ParseHtml => Ok(ScanSpec(filepath, htmlDoc))
    case ConvertAsciidoc =>
      (match converted
       case Ok(doc) => Ok(ScanSpec(filepath, doc))
       case Err(m) => Err(ConversionFailed(m)))
    case Unsupported => Err(NoParsedDocument(Lower(SplitExt(filepath))))
  }

  /** The scan as evidently intended for an unsupported extension: the file is skipped
      with no records, as the warning says; HTML and AsciiDoc files scan as written. */
  function ScanResultSkipping(filepath: string, htmlDoc: Document, converted: Result<Document, string>)
    : (r: Result<seq<ImageDict>, ScanError>)
    requires WellFormed(htmlDoc) && (converted.Ok? ==> WellFormed(converted.value))
    ensures r.Err? <==> ParsePathFor(filepath) == ConvertAsciidoc && converted.Err?
    ensures ParsePathFor(filepath) == Unsupported ==> r == Ok([])
    ensures ParsePathFor(filepath) != Unsupported ==> r == ScanResult(filepath, htmlDoc, converted)
  {
    if ParsePathFor(filepath) == Unsupported then Ok([]) else ScanResult(filepath, htmlDoc, converted)
  }

  /** A chapter named "notes.txt" is not skipped as the warning announces: the scan as
      written fails, the intended scan yields no records. */
  lemma UnsupportedExtensionFails(htmlDoc: Document, converted: Result<Document, string>)
    requires WellFormed(htmlDoc) && (converted.Ok? ==> WellFormed(converted.value))
    ensures ScanResult("notes.txt", htmlDoc, converted) == Err(NoParsedDocument(".txt"))
    ensures ScanResultSkipping("notes.txt", htmlDoc, converted) == Ok([])
  {
    NotesTxtExtension();
  }

  /** The lowered extension of "notes.txt" is ".txt", which has no parse path. */
  lemma NotesTxtExtension()
    ensures Lower(SplitExt("notes.txt")) == ".txt"
    ensures ParsePathFor("notes.txt") == Unsupported
  {
    var p := "notes.txt";
    assert p[5..] == ".txt";
    LowerOfNoCapitals(".txt");
    ExtensionOfPlainName(p, ".txt");
  }

  /** A file name without a slash that does not start with a dot and ends with the
      extension word `w` has `w` as its lowered extension. */
  lemma ExtensionOfPlainName(p: string, w: string)
    requires ExtWord(w) && |p| > |w| && p[0] != '.'
    requires forall k :: 0 <= k < |p| ==> p[k] != '/'
    requires Lower(p[|p| - |w|..]) == w
    ensures Lower(SplitExt(p)) == w
  {
    assert LastIndexOf(p, '/').None?;
    assert BaseName(p) == p;
    assert StemNotAllDots(p, w) by { assert 0 < |p| - |w| && p[0] != '.'; }
    assert HasSplitExt(p, w);
    HasSplitExtIff(p, w);
  }

  /** The loop of `collect_image_data_from_chapter_file`: walks the `img` elements of
      the tree in document order, appending a record for each one with a `src`. */
  method CollectFromTree(filepath: string, soup: Document) returns (images: seq<ImageDict>)
    requires WellFormed(soup)
    ensures images == ScanSpec(filepath, soup)
  {
    var imgElems := FindAll(soup, "img");
    images := [];
    var n := 0;
    while n < |imgElems|
      invariant 0 <= n <= |imgElems|
      invariant images == Records(filepath, soup, imgElems[..n])
    {
      var img := imgElems[n];
      RecordsStep(filepath, soup, imgElems, n);
      if "src" in soup[img].attrs {
        images := images + [ImageRecord(filepath, soup, img)];
      }
      n := n + 1;
    }
    assert imgElems[..n] == imgElems;
  }

  /** One more image extends the records by its record, if it has a `src`. */
  lemma RecordsStep(filepath: string, doc: Document, imgs: seq<nat>, n: nat)
    requires WellFormed(doc) && ValidIndices(doc, imgs) && n < |imgs|
    ensures Records(filepath, doc, imgs[..n + 1]) == Records(filepath, doc, imgs[..n])
      + (if HasSrc(doc, imgs[n]) then [ImageRecord(filepath, doc, imgs[n])] else [])
  {
    assert imgs[..n + 1][..n] == imgs[..n];
  }

  /** `collect_image_data_from_chapter_file`: picks the parse path from the extension,
      then scans the resulting tree. */
  method CollectImageDataFromChapterFile(filepath: string, htmlDoc: Document, converted: Result<Document, string>)
    returns (r: Result<seq<ImageDict>, ScanError>)
    requires WellFormed(htmlDoc) && (converted.Ok? ==> WellFormed(converted.value))
    ensures r == ScanResult(filepath, htmlDoc, converted)
  {
    var path := ParsePathFor(filepath);
    if path == ParseHtml {
      var images := CollectFromTree(filepath, htmlDoc);
      r := Ok(images);
    } else if path == ConvertAsciidoc && converted.Ok? {
      var images := CollectFromTree(filepath, converted.value);
      r := Ok(images);
    } else if path == ConvertAsciidoc {
      r := Err(ConversionFailed(converted.error));
    } else {
      r := Err(NoParsedDocument(Lower(SplitExt(filepath))));
    }
  }

  /** The records line up with the kept images one for one. */
  lemma {:induction false} RecordsOfKept(filepath: string, doc: Document, imgs: seq<nat>)
    requires WellFormed(doc) && ValidIndices(doc, imgs)
    ensures |Records(filepath, doc, imgs)| == |KeepSrc(doc, imgs)|
    ensures forall k :: 0 <= k < |KeepSrc(doc, imgs)| ==>
      Records(filepath, doc, imgs)[k] == ImageRecord(filepath, doc, KeepSrc(doc, imgs)[k])
  {
    if imgs != [] {
      RecordsOfKept(filepath, doc, imgs[..|imgs| - 1]);
    }
  }

  /** A successful scan holds one record per `img` element with a `src`, in document
      order: the source path, the `src`, the alt text (empty when absent) and the
      image's context. */
  lemma ScanFollowsKeptImages(filepath: string, doc: Document)
    requires WellFormed(doc)
    ensures var r := ScanSpec(filepath, doc); var ks := KeptImages(doc);
      && |r| == |ks|
      && forall k :: 0 <= k < |r| ==>
        && "filepath" in r[k] && r[k]["filepath"] == filepath
        && "image_path" in r[k] && r[k]["image_path"] == doc[ks[k]].attrs["src"]
        && "original_alt_text" in r[k] && r[k]["original_alt_text"] == AltText(doc, ks[k])
        && "preceding_para_text" in r[k] && r[k]["preceding_para_text"] == ContextOf(doc, ks[k]).preceding
        && "succeeding_para_text" in r[k] && r[k]["succeeding_para_text"] == ContextOf(doc, ks[k]).succeeding
        && "caption_text" in r[k] && r[k]["caption_text"] == ContextOf(doc, ks[k]).caption
  {
    var r := ScanSpec(filepath, doc);
    var ks := KeptImages(doc);
    RecordsOfKept(filepath, doc, FindAll(doc, "img"));
    forall k | 0 <= k < |r|
      ensures "filepath" in r[k] && r[k]["filepath"] == filepath
      ensures "image_path" in r[k] && r[k]["image_path"] == doc[ks[k]].attrs["src"]
      ensures "original_alt_text" in r[k] && r[k]["original_alt_text"] == AltText(doc, ks[k])
      ensures "preceding_para_text" in r[k] && r[k]["preceding_para_text"] == ContextOf(doc, ks[k]).preceding
      ensures "succeeding_para_text" in r[k] && r[k]["succeeding_para_text"] == ContextOf(doc, ks[k]).succeeding
      ensures "caption_text" in r[k] && r[k]["caption_text"] == ContextOf(doc, ks[k]).caption
    {
      assert r[k] == ImageRecord(filepath, doc, ks[k]);
    }
  }

  /** The scan fails exactly for an unsupported extension and for a failed AsciiDoc
      conversion; an HTML chapter always scans. */
  lemma ScanOutcomeByPath(filepath: string, htmlDoc: Document, converted: Result<Document, string>)
    requires WellFormed(htmlDoc) && (converted.Ok? ==> WellFormed(converted.value))
    ensures ScanResult(filepath, htmlDoc, converted).Err? <==>
      ParsePathFor(filepath) == Unsupported || (ParsePathFor(filepath) == ConvertAsciidoc && converted.Err?)
  {
  }
}
