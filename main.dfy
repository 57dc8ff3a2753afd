/** The steps of the driver script: the confirmation answer, the image-filter file and
    its allowlist, the chapter loop with its skip rule, the generation loop, grouping
    the image records by chapter, and building one chapter record per group. */
module Driver {
  import opened Wrappers
  import opened Strings
  import opened Paths
  import opened ImageDicts
  import opened Soup
  import opened ChaptersAndImages
  import opened ProcessRepoFiles

  /** The run goes on only when the answer, stripped and lower-cased, is "y" or "yes". */
  predicate Confirmed(answer: string) {
    Lower(Strip(answer)) in ["y", "yes"]
  }

  predicate IsY(c: char) { c == 'y' || c == 'Y' }

  /** The accepted answers are exactly "y" and "yes" in any letter case, with any
      surrounding whitespace. */
  lemma ConfirmedIff(answer: string)
    ensures var s := Strip(answer);
      Confirmed(answer) <==>
        || (|s| == 1 && IsY(s[0]))
        || (|s| == 3 && IsY(s[0]) && (s[1] == 'e' || s[1] == 'E') && (s[2] == 's' || s[2] == 'S'))
  {
    YesInAnyCase(Strip(answer));
  }

  /** "y" or "yes" in any letter case, and nothing else, lowers to one of the two. */
  lemma YesInAnyCase(s: string)
    ensures Lower(s) in ["y", "yes"] <==>
      || (|s| == 1 && IsY(s[0]))
      || (|s| == 3 && IsY(s[0]) && (s[1] == 'e' || s[1] == 'E') && (s[2] == 's' || s[2] == 'S'))
  {
    var l := Lower(s);
    assert l in ["y", "yes"] <==> l == "y" || l == "yes";
    if |s| == 1 {
      assert l[0] == LowerChar(s[0]);
      assert l == "y" <==> l[0] == 'y';
    } else if |s| == 3 {
      assert l[0] == LowerChar(s[0]) && l[1] == LowerChar(s[1]) && l[2] == LowerChar(s[2]);
      assert l == "yes" <==> l[0] == 'y' && l[1] == 'e' && l[2] == 's';
    }
  }

  /** A line of the filter file that names an image: after stripping, not empty and
      not starting with `#`. */
  predicate KeepsLine(line: string) {
    var s := Strip(line);
    s != "" && s[0] != '#'
  }

  /** What one line of the filter file contributes: its stripped form when it is kept. */
  function LineEntry(line: string): Option<string> {
    if KeepsLine(line) then Some(Strip(line)) else None
  }

  /** The values `f` gives the elements of `xs` it does not drop, in order. */
  function FilterMap(xs: seq<string>, f: string -> Option<string>): (r: seq<string>)
    ensures |r| <= |xs|
  {
    if xs == [] then []
    else (match f(xs[0]) case Some(v) => [v] case None => []) + FilterMap(xs[1..], f)
  }

  /** A value is in the filter map exactly when `f` gives it to some element. */
  lemma {:induction false} FilterMapMembers(xs: seq<string>, f: string -> Option<string>, x: string)
    ensures x in FilterMap(xs, f) <==> exists k :: 0 <= k < |xs| && f(xs[k]) == Some(x)
  {
    if xs != [] {
      var tail := xs[1..];
      FilterMapMembers(tail, f, x);
      if exists k :: 0 <= k < |xs| && f(xs[k]) == Some(x) {
        var k :| 0 <= k < |xs| && f(xs[k]) == Some(x);
        if k > 0 {
          assert tail[k - 1] == xs[k];
        }
      }
      if exists k :: 0 <= k < |tail| && f(tail[k]) == Some(x) {
        var k :| 0 <= k < |tail| && f(tail[k]) == Some(x);
        assert xs[k + 1] == tail[k];
      }
    }
  }

  /** The filter map of two stretches is the first stretch's followed by the second's. */
  lemma {:induction false} FilterMapAppend(a: seq<string>, b: seq<string>, f: string -> Option<string>)
    ensures FilterMap(a + b, f) == FilterMap(a, f) + FilterMap(b, f)
  {
    if a == [] {
      assert a + b == b;
    } else {
      assert (a + b)[0] == a[0];
      assert (a + b)[1..] == a[1..] + b;
      FilterMapAppend(a[1..], b, f);
    }
  }

  /** The allowlist read from the filter file's lines: each kept line, stripped, in file
      order. */
  function AllowlistFromLines(lines: seq<string>): (r: seq<string>)
    ensures |r| <= |lines|
  {
    FilterMap(lines, LineEntry)
  }

  /** The allowlist holds exactly the stripped forms of the kept lines. */
  lemma AllowlistMembers(lines: seq<string>, x: string)
    ensures x in AllowlistFromLines(lines) <==>
      exists k :: 0 <= k < |lines| && KeepsLine(lines[k]) && Strip(lines[k]) == x
  {
    FilterMapMembers(lines, LineEntry, x);
    assert forall k :: 0 <= k < |lines| ==>
      (LineEntry(lines[k]) == Some(x) <==> KeepsLine(lines[k]) && Strip(lines[k]) == x);
  }

  /** Every allowlist entry is non-empty, stripped and does not start with `#`. */
  lemma AllowlistEntries(lines: seq<string>, x: string)
    requires x in AllowlistFromLines(lines)
    ensures x != "" && x[0] != '#' && IsStripped(x)
  {
    AllowlistMembers(lines, x);
  }

  /** Reading the filter file in two parts gives the two allowlists one after the other:
      the allowlist keeps the file's order. */
  lemma AllowlistKeepsOrder(a: seq<string>, b: seq<string>)
    ensures AllowlistFromLines(a + b) == AllowlistFromLines(a) + AllowlistFromLines(b)
  {
    FilterMapAppend(a, b, LineEntry);
  }

  /** pathlib's rule for the suffix word `w`: the file name ends with `w` in any letter
      case after at least one character. */
  predicate HasPathlibSuffix(path: string, w: string) {
    var name := BaseName(path);
    |name| > |w| && Lower(name[|name| - |w|..]) == w
  }

  /** pathlib's suffix, lowered, is the extension word `w` exactly when the file name
      follows pathlib's rule for `w`. */
  lemma SuffixNamed(path: string, w: string)
    requires ExtWord(w)
    ensures Lower(Suffix(path)) == w <==> HasPathlibSuffix(path, w)
  {
    SuffixIs(path, w);
  }

  /** `suffix[1:]`: the suffix without its dot. */
  function DropDot(suffix: string): string {
    if suffix == [] then [] else suffix[1..]
  }

  /** The filter file is accepted when it exists, is a regular file and its suffix
      without the dot, lower-cased, is "txt". */
  predicate FilterFileAccepted(exists_: bool, isFile: bool, path: string) {
    !(!exists_ || !isFile || Lower(DropDot(Suffix(path))) != "txt")
  }

  /** Accepted filter files are exactly the existing regular files whose name is longer
      than ".txt" and ends with ".txt" in any letter case. */
  lemma FilterFileAcceptedIff(exists_: bool, isFile: bool, path: string)
    ensures FilterFileAccepted(exists_, isFile, path) <==> exists_ && isFile && HasPathlibSuffix(path, ".txt")
  {
    assert "." + "txt" == ".txt";
    assert ExtWord(".txt");
    SuffixWordIff(path, "txt");
  }

  /** The suffix without its dot, lowered, is `w` exactly when the name ends with a dot
      and `w` in any letter case. */
  lemma SuffixWordIff(path: string, w: string)
    requires ExtWord("." + w)
    ensures Lower(DropDot(Suffix(path))) == w <==> HasPathlibSuffix(path, "." + w)
  {
    SuffixNamed(path, "." + w);
    DropDotLower(Suffix(path), w);
  }

  /** Comparing a suffix without its dot is comparing the suffix with the dot put back. */
  lemma DropDotLower(s: string, w: string)
    requires s == [] || s[0] == '.'
    requires w != []
    ensures Lower(DropDot(s)) == w <==> (s != [] && Lower(s) == "." + w)
  {
    if s != [] {
      assert Lower(s) == ['.'] + Lower(DropDot(s));
      if Lower(s) == "." + w {
        assert Lower(DropDot(s)) == Lower(s)[1..] == w;
      }
    }
  }

  const FilterFileError: string := "Image file filter filepath must point to a valid text (.txt) file."

  /** The image-filter step: no filter argument (or an empty one) gives no list; a
      rejected file is a fatal error; otherwise the file's allowlist. */
  function ReadImageFilter(filterArg: Option<string>, exists_: bool, isFile: bool, lines: seq<string>)
    : (r: Result<Option<seq<string>>, string>)
    ensures r.Err? <==> Truthy(filterArg) && !FilterFileAccepted(exists_, isFile, filterArg.value)
    ensures r == Ok(None) <==> !Truthy(filterArg)
    ensures r.Ok? && r.value.Some? ==> r.value.value == AllowlistFromLines(lines)
  {
    if !Truthy(filterArg) then Ok(None)
    else if !FilterFileAccepted(exists_, isFile, filterArg.value) then Err(FilterFileError)
    else Ok(Some(AllowlistFromLines(lines)))
  }

  /** What the scan is given as its filter: an empty allowlist means no filtering. */
  function FilterForScan(list: Option<seq<string>>): (r: Option<seq<string>>)
    ensures r.None? <==> list.None? || list.value == []
    ensures r.Some? ==> r == list && r.value != []
  {
    if list.Some? && list.value != [] then list else None
  }

  /** The file name, lower-cased, ends with ".asciidoc" or ".adoc". */
  predicate AsciidocName(file: string) {
    var name := Lower(BaseName(file));
    EndsWith(name, ".asciidoc") || EndsWith(name, ".adoc")
  }

  /** Whether the run must first check that the AsciiDoc converter is installed: some
      chapter file has an AsciiDoc name. */
  predicate NeedsAsciidoctor(files: seq<string>) {
    exists k :: 0 <= k < |files| && AsciidocName(files[k])
  }

  /** Lower-casing a tail is taking the tail of the lower-cased string. */
  lemma LowerTail(s: string, n: nat)
    requires n <= |s|
    ensures Lower(s)[n..] == Lower(s[n..])
  {
  }

  /** A name whose tail lowers to `w` ends with `w` once lower-cased. */
  lemma {:induction false} LowerEndsWith(name: string, w: string)
    requires |w| <= |name| && Lower(name[|name| - |w|..]) == w
    ensures EndsWith(Lower(name), w)
  {
    LowerTail(name, |name| - |w|);
  }

  /** A file named with either extension has a lowered name ending with that one. */
  lemma {:induction false} EitherLowerEndsWith(f: string, w1: string, w2: string)
    requires HasSplitExt(f, w1) || HasSplitExt(f, w2)
    ensures EndsWith(Lower(BaseName(f)), w1) || EndsWith(Lower(BaseName(f)), w2)
  {
    if HasSplitExt(f, w1) {
      LowerEndsWith(BaseName(f), w1);
    } else {
      LowerEndsWith(BaseName(f), w2);
    }
  }

  /** The converter check covers every file the scan converts: a file whose extension
      sends it to the AsciiDoc conversion has an AsciiDoc name. */
  lemma AsciidoctorCheckedBeforeConversion(files: seq<string>, k: nat)
    requires k < |files| && ParsePathFor(files[k]) == ConvertAsciidoc
    ensures NeedsAsciidoctor(files)
  {
    AsciidocByName(files[k]);
    EitherLowerEndsWith(files[k], ".asciidoc", ".adoc");
    assert AsciidocName(files[k]);
  }

  const FilesToSkip: seq<string> := ["cover.html"]

  /** A chapter file is scanned unless its name contains one of the skip strings. */
  predicate IsScanned(file: string) {
    forall k :: 0 <= k < |FilesToSkip| ==> !Contains(BaseName(file), FilesToSkip[k])
  }

  /** The chapter scan, abstracted: the records of one chapter file, or the error that
      stops the run. */
  type Scanner = string -> Result<seq<ImageDict>, ScanError>

  /** The images of all scanned chapter files, concatenated in manifest order; the
      first failing scan stops the run. */
  function CollectSpec(files: seq<string>, scan: Scanner): Result<seq<ImageDict>, ScanError> {
    if files == [] then Ok([])
    else
      match CollectSpec(files[..|files| - 1], scan)
      case Err(e) => Err(e)
      case Ok(acc) =>
        var last := files[|files| - 1];
        if !IsScanned(last) then Ok(acc)
        else
          match scan(last)
          case Err(e) => Err(e)
          case Ok(images) => Ok(acc + images)
  }

  /** The chapter loop: scans every file that is not skipped and extends the image
      list with its records. */
  method CollectAllImages(files: seq<string>, scan: Scanner) returns (r: Result<seq<ImageDict>, ScanError>)
    ensures r == CollectSpec(files, scan)
  {
    var allImages: seq<ImageDict> := [];
    var n := 0;
    while n < |files|
      invariant 0 <= n <= |files|
      invariant CollectSpec(files[..n], scan) == Ok(allImages)
    {
      var file := files[n];
      assert files[..n + 1][..n] == files[..n];
      if IsScanned(file) {
        var chapterImages := scan(file);
        if chapterImages.Err? {
          assert CollectSpec(files[..n + 1], scan) == Err(chapterImages.error);
          CollectKeepsOrder(files[..n + 1], files[n + 1..], scan);
          assert files[..n + 1] + files[n + 1..] == files;
          return Err(chapterImages.error);
        }
        allImages := allImages + chapterImages.value;
      }
      n := n + 1;
    }
    assert files[..n] == files;
    return Ok(allImages);
  }

  /** Skipped files are never scanned: the outcome depends on the scanner only at the
      files that are not skipped. */
  lemma {:induction false} SkippedFilesNeverScanned(files: seq<string>, scan1: Scanner, scan2: Scanner)
    requires forall k :: 0 <= k < |files| && IsScanned(files[k]) ==> scan1(files[k]) == scan2(files[k])
    ensures CollectSpec(files, scan1) == CollectSpec(files, scan2)
  {
    if files != [] {
      SkippedFilesNeverScanned(files[..|files| - 1], scan1, scan2);
    }
  }

  /** A run over two runs of files is the first run's images followed by the second's:
      images are collected in manifest order. */
  lemma {:induction false} CollectKeepsOrder(a: seq<string>, b: seq<string>, scan: Scanner)
    ensures CollectSpec(a + b, scan) ==
      match CollectSpec(a, scan)
      case Err(e) => Err(e)
      case Ok(x) =>
        match CollectSpec(b, scan)
        case Err(e) => Err(e)
        case Ok(y) => Ok(x + y)
  {
    if b == [] {
      assert a + b == a;
      match CollectSpec(a, scan)
      case Err(e) =>
      case Ok(x) => assert x + [] == x;
    } else {
      var front := b[..|b| - 1];
      var last := b[|b| - 1];
      assert (a + b)[..|a + b| - 1] == a + front;
      assert (a + b)[|a + b| - 1] == last;
      CollectKeepsOrder(a, front, scan);
      match CollectSpec(a, scan)
      case Err(e) =>
      case Ok(x) =>
        match CollectSpec(front, scan)
        case Err(e) =>
        case Ok(y) =>
          if IsScanned(last) {
            match scan(last)
            case Err(e) =>
            case Ok(images) =>
              assert x + (y + images) == x + y + images;
          }
    }
  }

  const GeneratedKey: string := "generated_alt_text"

  /** The record after generation: its `generated_alt_text` set to the generator's output. */
  function WithGenerated(image: ImageDict, generate: ImageDict -> string): ImageDict {
    image[GeneratedKey := generate(image)]
  }

  /** The generation loop: each record, in list order, gets the generator's output for
      it; no other key changes. */
  method GenerateAll(images: array<ImageDict>, generate: ImageDict -> string)
    modifies images
    ensures forall k :: 0 <= k < images.Length ==> images[k] == WithGenerated(old(images[k]), generate)
  {
    var i := 0;
    while i < images.Length
      invariant 0 <= i <= images.Length
      invariant forall k :: 0 <= k < i ==> images[k] == WithGenerated(old(images[k]), generate)
      invariant forall k :: i <= k < images.Length ==> images[k] == old(images[k])
    {
      images[i] := WithGenerated(images[i], generate);
      i := i + 1;
    }
  }

  /** After generation a record holds the generator's output for it, and every other
      key is as before. */
  lemma GeneratedRecord(image: ImageDict, generate: ImageDict -> string)
    ensures Get(WithGenerated(image, generate), GeneratedKey) == Some(generate(image))
    ensures forall key :: key != GeneratedKey ==> Get(WithGenerated(image, generate), key) == Get(image, key)
  {
  }

  const ChapterKey: string := "chapter_filepath"

  /** The chapter path a record is grouped under, if it has a truthy one. */
  function ChapterOf(image: ImageDict): Option<string> {
    if Truthy(Get(image, ChapterKey)) then Get(image, ChapterKey) else None
  }

  /** The records filed under chapter path `p`, in encounter order. */
  function GroupOf(images: seq<ImageDict>, p: string): (r: seq<ImageDict>)
    ensures |r| <= |images|
    ensures forall k :: 0 <= k < |r| ==> ChapterOf(r[k]) == Some(p)
  {
    if images == [] then []
    else
      var last := images[|images| - 1];
      GroupOf(images[..|images| - 1], p) + (if ChapterOf(last) == Some(p) then [last] else [])
  }

  /** The chapter paths in order of first occurrence. */
  function GroupKeys(images: seq<ImageDict>): seq<string> {
    if images == [] then []
    else
      var keys := GroupKeys(images[..|images| - 1]);
      var p := ChapterOf(images[|images| - 1]);
      if p.Some? && p.value !in keys then keys + [p.value] else keys
  }

  predicate Distinct<T(==)>(s: seq<T>) {
    forall k, l :: 0 <= k < l < |s| ==> s[k] != s[l]
  }

  /** Some record is filed under `p`. */
  ghost predicate HasChapter(images: seq<ImageDict>, p: string) {
    exists k :: 0 <= k < |images| && ChapterOf(images[k]) == Some(p)
  }

  /** The chapter paths are distinct and are exactly the truthy chapter paths of the
      records. */
  lemma {:induction false} GroupKeysSpec(images: seq<ImageDict>)
    ensures Distinct(GroupKeys(images))
    ensures forall p :: p in GroupKeys(images) <==> HasChapter(images, p)
  {
    if images != [] {
      var front := images[..|images| - 1];
      var last := images[|images| - 1];
      GroupKeysSpec(front);
      var keys := GroupKeys(front);
      var p := ChapterOf(last);
      if p.Some? && p.value !in keys {
        var r := keys + [p.value];
        forall k, l | 0 <= k < l < |r| ensures r[k] != r[l] {
          assert r[k] == keys[k];
          if l < |keys| {
            assert r[l] == keys[l];
          } else {
            assert keys[k] in keys;
          }
        }
        assert Distinct(r);
      }
      forall p ensures HasChapter(images, p) <==> HasChapter(front, p) || ChapterOf(last) == Some(p) {
        if HasChapter(images, p) && ChapterOf(last) != Some(p) {
          var k :| 0 <= k < |images| && ChapterOf(images[k]) == Some(p);
          assert front[k] == images[k];
        }
        if HasChapter(front, p) {
          var k :| 0 <= k < |front| && ChapterOf(front[k]) == Some(p);
          assert front[k] == images[k];
        }
      }
    }
  }

  /** The grouping dictionary: each chapter path to its records. */
  function GroupMap(images: seq<ImageDict>): map<string, seq<ImageDict>> {
    map p | p in GroupKeys(images) :: GroupOf(images, p)
  }

  /** Adding one record to the grouping: a record with a truthy chapter path is appended
      to that path's list, which is created when the path is new; other groups stay. */
  lemma {:induction false} GroupMapStep(images: seq<ImageDict>, img: ImageDict)
    ensures var m := GroupMap(images);
      GroupMap(images + [img]) ==
        match ChapterOf(img)
        case None => m
        case Some(p) => m[p := (if p in m then m[p] else []) + [img]]
  {
    var all := images + [img];
    assert all[..|all| - 1] == images;
    assert all[|all| - 1] == img;
    var m := GroupMap(images);
    var m' := GroupMap(all);
    assert GroupKeys(all) == GroupKeysAfter(images, img);
    match ChapterOf(img)
    case None =>
      forall q | q in m' ensures q in m && m'[q] == m[q] {
        assert GroupOf(all, q) == GroupOf(images, q);
      }
    case Some(p) =>
      var n := m[p := (if p in m then m[p] else []) + [img]];
      forall q | q in m' ensures q in n && m'[q] == n[q] {
        assert GroupOf(all, q) == GroupOf(images, q) + (if q == p then [img] else []);
        if q == p && p !in m {
          assert GroupOf(images, p) == [] by {
            if GroupOf(images, p) != [] {
              GroupOfFrom(images, p);
              GroupKeysSpec(images);
            }
          }
        }
      }
  }

  /** The chapter paths after one more record: its path is added when it is new. */
  function GroupKeysAfter(images: seq<ImageDict>, img: ImageDict): seq<string> {
    match ChapterOf(img)
    case None => GroupKeys(images)
    case Some(p) => if p in GroupKeys(images) then GroupKeys(images) else GroupKeys(images) + [p]
  }

  /** Every record filed under `p` is one of the records. */
  lemma {:induction false} GroupOfFrom(images: seq<ImageDict>, p: string)
    requires GroupOf(images, p) != []
    ensures HasChapter(images, p)
  {
    var front := images[..|images| - 1];
    var last := images[|images| - 1];
    if ChapterOf(last) != Some(p) {
      GroupOfFrom(front, p);
      var k :| 0 <= k < |front| && ChapterOf(front[k]) == Some(p);
      assert images[k] == front[k];
    }
  }

  /** The chapter paths and the grouping of one more record of `images`. */
  lemma GroupPrefixStep(images: seq<ImageDict>, n: nat)
    requires n < |images|
    ensures GroupKeys(images[..n + 1]) == GroupKeysAfter(images[..n], images[n])
    ensures var m := GroupMap(images[..n]);
      GroupMap(images[..n + 1]) ==
        match ChapterOf(images[n])
        case None => m
        case Some(p) => m[p := (if p in m then m[p] else []) + [images[n]]]
  {
    assert images[..n + 1] == images[..n] + [images[n]];
    assert images[..n + 1][..n] == images[..n];
    GroupMapStep(images[..n], images[n]);
  }

  /** The grouping loop: appends each record with a truthy `chapter_filepath` to its
      chapter's list, creating the list on first sight of the path. */
  method GroupByChapter(images: seq<ImageDict>) returns (keys: seq<string>, groups: map<string, seq<ImageDict>>)
    ensures keys == GroupKeys(images)
    ensures groups == GroupMap(images)
  {
    keys := [];
    groups := map[];
    var n := 0;
    while n < |images|
      invariant 0 <= n <= |images|
      invariant keys == GroupKeys(images[..n])
      invariant groups == GroupMap(images[..n])
    {
      var img := images[n];
      GroupPrefixStep(images, n);
      var fp := Get(img, ChapterKey);
      if Truthy(fp) {
        var p := fp.value;
        ghost var before := groups;
        if p !in groups {
          keys := keys + [p];
          groups := groups[p := []];
        }
        groups := groups[p := groups[p] + [img]];
        assert groups == before[p := (if p in before then before[p] else []) + [img]];
      }
      n := n + 1;
    }
    assert images[..n] == images;
  }

  /** `detect_format`: HTML for the suffixes ".html" and ".htm" in any letter case,
      AsciiDoc for anything else. */
  function DetectFormat(path: string): ChapterFormat {
    var s := Lower(Suffix(path));
    if s == ".html" || s == ".htm" then Html else Asciidoc
  }

  /** A chapter is HTML exactly when its name ends with ".html" or ".htm" in any letter
      case after at least one character. */
  lemma DetectFormatIff(path: string)
    ensures DetectFormat(path) == Html <==> HasPathlibSuffix(path, ".html") || HasPathlibSuffix(path, ".htm")
  {
    SuffixEither(path, ".html", ".htm");
  }

  /** The lowered suffix is one of two extension words exactly when the name ends with
      one of them in any letter case. */
  lemma SuffixEither(path: string, a: string, b: string)
    requires ExtWord(a) && ExtWord(b)
    ensures var s := Lower(Suffix(path));
      s == a || s == b <==> HasPathlibSuffix(path, a) || HasPathlibSuffix(path, b)
  {
    SuffixNamed(path, a);
    SuffixNamed(path, b);
  }

  /** A chapter record as the driver builds it. */
  datatype ChapterEntry = ChapterEntry(chapter_filepath: string, images: seq<ImageDict>, chapter_format: ChapterFormat)

  /** One chapter record per group, in group order. */
  function BuildChapters(keys: seq<string>, groups: map<string, seq<ImageDict>>): (r: seq<ChapterEntry>)
    requires forall k :: 0 <= k < |keys| ==> keys[k] in groups
    ensures |r| == |keys|
    ensures forall k :: 0 <= k < |r| ==> r[k] == ChapterEntry(keys[k], groups[keys[k]], DetectFormat(keys[k]))
  {
    seq(|keys|, k requires 0 <= k < |keys| => ChapterEntry(keys[k], groups[keys[k]], DetectFormat(keys[k])))
  }

  /** The chapter records of the whole run: one per chapter path of the grouping. */
  function GroupedChapters(images: seq<ImageDict>): seq<ChapterEntry> {
    BuildChapters(GroupKeys(images), GroupMap(images))
  }

  /** A record with a truthy chapter path is filed under that path. */
  lemma {:induction false} GroupOfMember(images: seq<ImageDict>, j: nat)
    requires j < |images| && ChapterOf(images[j]).Some?
    ensures images[j] in GroupOf(images, ChapterOf(images[j]).value)
  {
    var p := ChapterOf(images[j]).value;
    var front := images[..|images| - 1];
    if j < |front| {
      assert front[j] == images[j];
      GroupOfMember(front, j);
    }
  }

  /** The chapters of a run: their paths are distinct, each has at least one image,
      each image in a chapter has that chapter's path, and every image with a truthy
      chapter path is in the chapter of that path. */
  lemma ChaptersFromGrouping(images: seq<ImageDict>)
    ensures var cs := GroupedChapters(images);
      && |cs| == |GroupKeys(images)|
      && (forall k, l :: 0 <= k < l < |cs| ==> cs[k].chapter_filepath != cs[l].chapter_filepath)
      && (forall k :: 0 <= k < |cs| ==> cs[k].images != [])
      && (forall k, j :: 0 <= k < |cs| && 0 <= j < |cs[k].images| ==>
            ChapterOf(cs[k].images[j]) == Some(cs[k].chapter_filepath))
      && (forall j :: 0 <= j < |images| && ChapterOf(images[j]).Some? ==>
            exists k ::
              && 0 <= k < |cs| && cs[k].chapter_filepath == ChapterOf(images[j]).value
              && images[j] in cs[k].images)
  {
    var keys := GroupKeys(images);
    var cs := GroupedChapters(images);
    GroupKeysSpec(images);
    GroupsNonEmpty(images);
    forall j | 0 <= j < |images| && ChapterOf(images[j]).Some?
      ensures exists k ::
        && 0 <= k < |cs| && cs[k].chapter_filepath == ChapterOf(images[j]).value
        && images[j] in cs[k].images
    {
      RecordGrouped(images, j);
      var k :| 0 <= k < |keys| && keys[k] == ChapterOf(images[j]).value && images[j] in GroupOf(images, keys[k]);
      assert cs[k].chapter_filepath == keys[k] && cs[k].images == GroupOf(images, keys[k]);
    }
  }

  /** Every chapter path of the grouping has at least one record. */
  lemma GroupsNonEmpty(images: seq<ImageDict>)
    ensures forall k :: 0 <= k < |GroupKeys(images)| ==> GroupOf(images, GroupKeys(images)[k]) != []
  {
    var keys := GroupKeys(images);
    GroupKeysSpec(images);
    forall k | 0 <= k < |keys| ensures GroupOf(images, keys[k]) != [] {
      assert keys[k] in keys;
      var j :| 0 <= j < |images| && ChapterOf(images[j]) == Some(keys[k]);
      GroupOfMember(images, j);
    }
  }

  /** A record with a truthy chapter path is in the group of one of the paths. */
  lemma RecordGrouped(images: seq<ImageDict>, j: nat)
    requires j < |images| && ChapterOf(images[j]).Some?
    ensures exists k ::
      && 0 <= k < |GroupKeys(images)| && GroupKeys(images)[k] == ChapterOf(images[j]).value
      && images[j] in GroupOf(images, GroupKeys(images)[k])
  {
    var keys := GroupKeys(images);
    var p := ChapterOf(images[j]).value;
    GroupKeysSpec(images);
    assert HasChapter(images, p);
    var k :| 0 <= k < |keys| && keys[k] == p;
    GroupOfMember(images, j);
  }

  /** No record has a truthy chapter path: there is nothing to group. */
  lemma {:induction false} NoChapterNoKeys(images: seq<ImageDict>)
    requires forall k :: 0 <= k < |images| ==> ChapterOf(images[k]).None?
    ensures GroupKeys(images) == []
  {
    if images != [] {
      NoChapterNoKeys(images[..|images| - 1]);
    }
  }

  /** The scan's records carry the source path under "filepath", while the grouping
      reads "chapter_filepath": no scanned record is ever grouped, and the run builds no
      chapter at all, whatever the chapter holds. */
  lemma ScanRecordsNeverGrouped(filepath: string, doc: Document)
    requires WellFormed(doc)
    ensures GroupKeys(ScanSpec(filepath, doc)) == []
    ensures GroupedChapters(ScanSpec(filepath, doc)) == []
  {
    var r := ScanSpec(filepath, doc);
    RecordsOfKept(filepath, doc, FindAll(doc, "img"));
    forall k | 0 <= k < |r| ensures ChapterOf(r[k]).None? {
      assert ChapterKey !in r[k].Keys;
    }
    NoChapterNoKeys(r);
  }

  /** A scanned record under the key names the grouping and the `Image` model use:
      "chapter_filepath" for the source path and "image_src" for the `src` value. */
  function IntendedKeys(d: ImageDict): ImageDict {
    Rename(Rename(d, "filepath", ChapterKey), "image_path", "image_src")
  }

  /** The scan's records as evidently intended: the same records under the intended
      key names. */
  function IntendedScanSpec(filepath: string, doc: Document): (r: seq<ImageDict>)
    requires WellFormed(doc)
    ensures |r| == |ScanSpec(filepath, doc)|
    ensures forall k :: 0 <= k < |r| ==> r[k] == IntendedKeys(ScanSpec(filepath, doc)[k])
  {
    var s := ScanSpec(filepath, doc);
    seq(|s|, k requires 0 <= k < |s| => IntendedKeys(s[k]))
  }

  /** Records that all carry chapter path `p` form the single group `p`, in order. */
  lemma AllInOneChapter(images: seq<ImageDict>, p: string)
    requires forall k :: 0 <= k < |images| ==> ChapterOf(images[k]) == Some(p)
    ensures GroupOf(images, p) == images
    ensures GroupKeys(images) == if images == [] then [] else [p]
  {
    AllInGroup(images, p);
    OnlyKey(images, p);
  }

  lemma {:induction false} AllInGroup(images: seq<ImageDict>, p: string)
    requires forall k :: 0 <= k < |images| ==> ChapterOf(images[k]) == Some(p)
    ensures GroupOf(images, p) == images
  {
    if images != [] {
      var front := images[..|images| - 1];
      var last := images[|images| - 1];
      AllInGroup(front, p);
      assert ChapterOf(last) == Some(p);
      assert front + [last] == images;
    }
  }

  lemma {:induction false} OnlyKey(images: seq<ImageDict>, p: string)
    requires forall k :: 0 <= k < |images| ==> ChapterOf(images[k]) == Some(p)
    ensures GroupKeys(images) == if images == [] then [] else [p]
  {
    if images != [] {
      var front := images[..|images| - 1];
      var last := images[|images| - 1];
      OnlyKey(front, p);
      assert ChapterOf(last) == Some(p);
      if front != [] {
        assert GroupKeys(front) == [p];
        assert p in GroupKeys(front);
      }
    }
  }

  /** With the intended key names, a chapter with a non-empty path and at least one
      image becomes exactly one chapter record holding all of its images, in document
      order. */
  lemma IntendedScanFormsOneChapter(filepath: string, doc: Document)
    requires WellFormed(doc) && filepath != ""
    ensures var rs := IntendedScanSpec(filepath, doc);
      GroupedChapters(rs) == if rs == [] then [] else [ChapterEntry(filepath, rs, DetectFormat(filepath))]
  {
    var rs := IntendedScanSpec(filepath, doc);
    IntendedRecordsName(filepath, doc);
    OneChapter(rs, filepath);
  }

  /** Every intended record names its source file under "chapter_filepath". */
  lemma IntendedRecordsName(filepath: string, doc: Document)
    requires WellFormed(doc) && filepath != ""
    ensures var rs := IntendedScanSpec(filepath, doc);
      forall k :: 0 <= k < |rs| ==> ChapterOf(rs[k]) == Some(filepath)
  {
    var rs := IntendedScanSpec(filepath, doc);
    var s := ScanSpec(filepath, doc);
    ScanFollowsKeptImages(filepath, doc);
    forall k | 0 <= k < |rs| ensures ChapterOf(rs[k]) == Some(filepath) {
      var once := Rename(s[k], "filepath", ChapterKey);
      assert once[ChapterKey] == filepath;
      assert Get(rs[k], ChapterKey) == Get(once, ChapterKey);
    }
  }

  /** Records that all carry chapter path `p` build one chapter record for `p` holding
      all of them, or none when there are no records. */
  lemma OneChapter(images: seq<ImageDict>, p: string)
    requires forall k :: 0 <= k < |images| ==> ChapterOf(images[k]) == Some(p)
    ensures GroupedChapters(images) == if images == [] then [] else [ChapterEntry(p, images, DetectFormat(p))]
  {
    AllInOneChapter(images, p);
    if images != [] {
      assert GroupMap(images) == map[p := images];
    }
  }
}
