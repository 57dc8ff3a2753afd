/** The validated Chapter and Image records: a two-value chapter format, required
    fields, and optional fields with their defaults. Construction from keyword
    arguments either yields the record or fails with the names of the offending
    fields, as model validation does. */
module ChaptersAndImages {
  import opened Wrappers

  /** The `Literal["html", "asciidoc"]` chapter format. */
  datatype ChapterFormat = Html | Asciidoc

  function FormatName(f: ChapterFormat): string {
    match f
    case Html => "html"
    case Asciidoc => "asciidoc"
  }

  /** Validation of a `chapter_format` value: only the two literals are accepted. */
  function ParseChapterFormat(s: string): (r: Option<ChapterFormat>)
    ensures r.Some? <==> s == "html" || s == "asciidoc"
    ensures r.Some? ==> FormatName(r.value) == s
  {
    if s == "html" then Some(Html)
    else if s == "asciidoc" then Some(Asciidoc)
    else None
  }

  datatype Image = Image(
    chapter_filepath: string,
    original_img_elem_str: string,
    image_src: string,
    image_filepath: string,
    preceding_para_text: string,
    succeeding_para_text: string,
    caption_text: string,
    original_alt_text: string,
    /** None: not generated yet, which is not the same as an empty text. */
    generated_alt_text: Option<string>,
    alt_text_replaced: bool)

  datatype Chapter = Chapter(
    filepath: string,
    content: string,
    chapter_format: ChapterFormat,
    /** None unless given, which is not the same as an empty list. */
    images: Option<seq<Image>>)

  /** Keyword arguments of an Image construction; None is an argument not passed
      (for `generated_alt_text`, not passed or passed as None). */
  datatype ImageArgs = ImageArgs(
    chapter_filepath: Option<string>,
    original_img_elem_str: Option<string>,
    image_src: Option<string>,
    image_filepath: Option<string>,
    preceding_para_text: Option<string>,
    succeeding_para_text: Option<string>,
    caption_text: Option<string>,
    original_alt_text: Option<string>,
    generated_alt_text: Option<string>,
    alt_text_replaced: Option<bool>)

  /** Keyword arguments of a Chapter construction; `chapter_format` is the raw value
      before validation. */
  datatype ChapterArgs = ChapterArgs(
    filepath: Option<string>,
    content: Option<string>,
    chapter_format: Option<string>,
    images: Option<seq<Image>>)

  /** The eight Image fields that have no default. */
  datatype RequiredImageField =
    | ChapterFilepath | OriginalImgElemStr | ImageSrc | ImageFilepath
    | PrecedingParaText | SucceedingParaText | CaptionText | OriginalAltText

  /** Whether the required field `f` was left out of `a`. */
  predicate ImageFieldMissing(a: ImageArgs, f: RequiredImageField) {
    match f
    case ChapterFilepath => a.chapter_filepath.None?
    case OriginalImgElemStr => a.original_img_elem_str.None?
    case ImageSrc => a.image_src.None?
    case ImageFilepath => a.image_filepath.None?
    case PrecedingParaText => a.preceding_para_text.None?
    case SucceedingParaText => a.succeeding_para_text.None?
    case CaptionText => a.caption_text.None?
    case OriginalAltText => a.original_alt_text.None?
  }

  /** The required fields in declaration order. */
  const RequiredImageFields: seq<RequiredImageField> := [
    ChapterFilepath, OriginalImgElemStr, ImageSrc, ImageFilepath,
    PrecedingParaText, SucceedingParaText, CaptionText, OriginalAltText]

  lemma EveryFieldListed(f: RequiredImageField)
    ensures f in RequiredImageFields
  {
    match f
    case ChapterFilepath => assert RequiredImageFields[0] == f;
    case OriginalImgElemStr => assert RequiredImageFields[1] == f;
    case ImageSrc => assert RequiredImageFields[2] == f;
    case ImageFilepath => assert RequiredImageFields[3] == f;
    case PrecedingParaText => assert RequiredImageFields[4] == f;
    case SucceedingParaText => assert RequiredImageFields[5] == f;
    case CaptionText => assert RequiredImageFields[6] == f;
    case OriginalAltText => assert RequiredImageFields[7] == f;
  }

  /** The fields of `fs` left out of `a`, in the order of `fs`. */
  function MissingAmong(a: ImageArgs, fs: seq<RequiredImageField>): (r: seq<RequiredImageField>)
    ensures forall f :: f in r <==> f in fs && ImageFieldMissing(a, f)
  {
    if fs == [] then []
    else
      assert forall f :: f in fs <==> f == fs[0] || f in fs[1..];
      (if ImageFieldMissing(a, fs[0]) then [fs[0]] else []) + MissingAmong(a, fs[1..])
  }

  /** The required fields left out of `a`, in declaration order. */
  function MissingImageFields(a: ImageArgs): (r: seq<RequiredImageField>)
    ensures forall f :: f in r <==> ImageFieldMissing(a, f)
  {
    forall f ensures f in RequiredImageFields { EveryFieldListed(f); }
    MissingAmong(a, RequiredImageFields)
  }

  /** `Image(**a)`: fails, naming every missing required field, unless all eight
      required fields are given; the two optional fields default to "not generated"
      and "not replaced". */
  function NewImage(a: ImageArgs): (r: Result<Image, seq<RequiredImageField>>)
    ensures r.Ok? <==>
      a.chapter_filepath.Some? && a.original_img_elem_str.Some? && a.image_src.Some?
      && a.image_filepath.Some? && a.preceding_para_text.Some? && a.succeeding_para_text.Some?
      && a.caption_text.Some? && a.original_alt_text.Some?
    ensures r.Err? ==> r.error != [] && forall f :: f in r.error <==> ImageFieldMissing(a, f)
    ensures r.Ok? ==>
      && r.value.chapter_filepath == a.chapter_filepath.value
      && r.value.original_img_elem_str == a.original_img_elem_str.value
      && r.value.image_src == a.image_src.value
      && r.value.image_filepath == a.image_filepath.value
      && r.value.preceding_para_text == a.preceding_para_text.value
      && r.value.succeeding_para_text == a.succeeding_para_text.value
      && r.value.caption_text == a.caption_text.value
      && r.value.original_alt_text == a.original_alt_text.value
      && r.value.generated_alt_text == a.generated_alt_text
      && r.value.alt_text_replaced == (a.alt_text_replaced == Some(true))
  {
    var missing := MissingImageFields(a);
    if missing != [] then
      assert ImageFieldMissing(a, missing[0]);
      Err(missing)
    else
      assert ImageSrc !in missing && ChapterFilepath !in missing;
      assert OriginalImgElemStr !in missing && ImageFilepath !in missing;
      assert PrecedingParaText !in missing && SucceedingParaText !in missing;
      assert CaptionText !in missing && OriginalAltText !in missing;
      Ok(Image(
        a.chapter_filepath.value, a.original_img_elem_str.value, a.image_src.value,
        a.image_filepath.value, a.preceding_para_text.value, a.succeeding_para_text.value,
        a.caption_text.value, a.original_alt_text.value,
        a.generated_alt_text, a.alt_text_replaced.GetOr(false)))
  }

  /** `Chapter(**a)`: fails unless `filepath` and `content` are given and
      `chapter_format` is one of the two literals; `images` defaults to None. */
  function NewChapter(a: ChapterArgs): (r: Result<Chapter, seq<string>>)
    ensures r.Ok? <==>
      a.filepath.Some? && a.content.Some?
      && a.chapter_format.Some? && a.chapter_format.value in {"html", "asciidoc"}
    ensures r.Err? ==>
      && r.error != []
      && ("filepath" in r.error <==> a.filepath.None?)
      && ("content" in r.error <==> a.content.None?)
      && ("chapter_format" in r.error <==>
            a.chapter_format.None? || a.chapter_format.value !in {"html", "asciidoc"})
    ensures r.Ok? ==>
      && r.value.filepath == a.filepath.value
      && r.value.content == a.content.value
      && FormatName(r.value.chapter_format) == a.chapter_format.value
      && r.value.images == a.images
  {
    var format := if a.chapter_format.Some? then ParseChapterFormat(a.chapter_format.value) else None;
    var errors :=
      (if a.filepath.None? then ["filepath"] else [])
      + (if a.content.None? then ["content"] else [])
      + (if format.None? then ["chapter_format"] else []);
    if errors != [] then Err(errors)
    else Ok(Chapter(a.filepath.value, a.content.value, format.value, a.images))
  }
}
