# Alt-text tool for book repositories, modelled in Dafny

This project models the deterministic core of a command-line tool that collects the
images of an O'Reilly-style book repository and asks a vision service for alt text. It
covers four pieces.

- **Chapter scan.** `read_atlas_json` maps the manifest's `files` list onto the
  project directory. `collect_image_data_from_chapter_file` picks a parse path from the
  file extension. It then walks the `img` elements of the parsed chapter in document
  order, and for each one with a `src` it records the alt text and the image's context:
  the preceding paragraph, the succeeding paragraph and the figure caption.
- **Driver steps of `main.py`.** These are the confirmation answer, the image-filter
  file check and its allowlist, and the converter check for AsciiDoc chapters. They
  also include the chapter loop with its `cover.html` skip rule and the generation
  loop. Last come the grouping of records by chapter path, `detect_format`, and one
  chapter record per group.
- **Prompt construction.** `create_prompt` builds the text and message shape, and
  `generate_alt_text` HTML-escapes the service's reply.
- **Record types.** The validated `Chapter` and `Image` records have a two-value
  format, required fields and defaulted optional fields.

A parsed chapter is a `Soup.Document`: the element tree listed in document order. Each
element has its tag, its parent's index, its attributes and its full text. A parent
always comes before its children. In this model `find_previous` is the nearest earlier
element, ancestors included. `find_next` is the nearest later element, own descendants
included. `find` is the first descendant. The loosely typed image dictionary of
`images.py` is `ImageDicts.ImageDict`, a `map<string, string>`. The driver reads the
same keys the scan writes, so a key mismatch between the two shows up in the model.

The files are `wrappers.dfy` (Option, Result), `strings.dfy` (`strip`, `lower`,
`startswith`, `in`), `paths.dfy` (`basename`, `dirname`, `join`, `splitext`, pathlib
`suffix`), `soup.dfy` (the tree searches), `images.dfy`, `chapters_and_images.dfy`,
`process_repo_files.dfy`, `generate_alt_text.dfy` and `main.dfy` (module `Driver`).

## Model

| member | source | states |
|---|---|---|
| Strings.Strip | main.py:45-46 | `line.strip()` never grows its input, and its result neither starts nor ends with whitespace (Python's `isspace` set) |
| Strings.StripIsInfix | main.py:45-46 | what `strip` removes is only leading and trailing whitespace: the result occurs in the line between a whitespace prefix and a whitespace suffix |
| Strings.StrippedIsFixed | main.py:45-46 | a string that is already stripped is left unchanged by `strip` |
| Strings.Lower | main.py:40 | `lower()` keeps the length and maps each character through the case mapping |
| Strings.ContainsIff | main.py:62 | `skip_str in name` holds exactly when the skip string occurs in the name at some index |
| Paths.BaseName | main.py:62 | a path's final component is the longest suffix of the path without a `/`: it contains none, and it is the whole path or starts right after the path's last `/` |
| Paths.DirName | process_repo_files.py:33 | `os.path.dirname` is empty when the path has no `/`; otherwise it is the prefix before the final component, with only `/` between the two, and it is either all slashes (the root, then nothing is stripped) or ends in a non-`/` with the trailing slashes stripped |
| Paths.Join | process_repo_files.py:34 | `os.path.join` keeps an absolute second part as it is; otherwise the result starts with the directory and ends with the entry, with one `/` between them exactly when the directory is non-empty and does not already end in `/` |
| Paths.SplitExt | process_repo_files.py:122 | the `splitext` extension is empty or starts with a dot and ends the file name |
| Paths.Suffix | main.py:87 | pathlib's `suffix` is empty or a dot plus at least one character ending the file name |
| Paths.SuffixIs | main.py:87 | the lowered suffix is an extension word exactly when the file name is longer than the word and ends with it in any letter case |
| Paths.SplitExtIs | process_repo_files.py:122-125 | the lowered `splitext` extension is an extension word exactly when the name ends with it in any letter case after a stem that is not all dots |
| Soup.FindAll | process_repo_files.py:132 | `find_all('img')` returns every `img` element and only those, in increasing document order |
| Soup.FindPrevious | process_repo_files.py:139 | `find_previous` returns the nearest earlier element with the tag, or none when no earlier element has it |
| Soup.FindNext | process_repo_files.py:140 | `find_next` returns the nearest later element with the tag, or none when no later element has it |
| Soup.Find | process_repo_files.py:141 | `find` returns the first descendant with the tag, or none when no descendant has it |
| ImageDicts.Get | main.py:82 | `img.get(key)` is present exactly when the key is in the record, and then holds the record's value |
| ImageDicts.Rename | process_repo_files.py:155-156 | moving a record's value to another key removes the old key, puts the value under the new key and changes no other key |
| ChaptersAndImages.ParseChapterFormat | chapters_and_images.py:6-11 | a chapter format is accepted exactly when it is "html" or "asciidoc", and the accepted format names that string |
| ChaptersAndImages.MissingImageFields | chapters_and_images.py:14-22 | the fields reported as missing are exactly the required Image fields left out |
| ChaptersAndImages.NewImage | chapters_and_images.py:14-24 | an Image is built exactly when all eight required fields are given; otherwise construction fails naming every missing field; a built Image copies the given fields, `generated_alt_text` defaults to "not generated" and `alt_text_replaced` to false |
| ChaptersAndImages.NewChapter | chapters_and_images.py:8-12 | a Chapter is built exactly when `filepath` and `content` are given and the format is one of the two literals; each failure names exactly the offending fields; `images` stays None unless given |
| ProcessRepoFiles.ReadAtlasJson | process_repo_files.py:33-40 | no manifest files (key missing or empty list) gives None; otherwise one path per entry in manifest order, an absolute entry kept as it is, and a relative entry equal to the manifest's directory, a `/` when that directory is non-empty and does not end in one, and the entry |
| ProcessRepoFiles.ParsePathByName | process_repo_files.py:122-131 | `ParsePathFor` models the extension dispatch: HTML parsing is chosen exactly for names ending in ".html" and conversion exactly for ".asciidoc" or ".adoc", in any letter case, after a stem that is not all dots |
| ProcessRepoFiles.PrecedingTextOf | process_repo_files.py:139 | the preceding text is the nearest earlier paragraph's text, or empty when there is none |
| ProcessRepoFiles.SucceedingTextOf | process_repo_files.py:140 | the succeeding text is the nearest later paragraph's text, or empty when there is none |
| ProcessRepoFiles.FirstDescendantTextOf | process_repo_files.py:141 | when an element has a descendant with the tag, `find` returns the first such descendant |
| ProcessRepoFiles.ContextOfSpec | process_repo_files.py:138-150 | `ContextOf` models the context lookup: inside a figure, the paragraphs are found from the figure and the caption is its first `figcaption`, failing that its first `caption`, failing that empty; elsewhere the paragraphs are found from the image and the caption is empty; texts are untrimmed |
| ProcessRepoFiles.ImageRecord | process_repo_files.py:152-162 | each record has exactly the six keys the scan writes, holding the file path, the `src`, the alt text (empty when absent) and the three context texts |
| ProcessRepoFiles.KeepSrc | process_repo_files.py:134-152 | the kept images are exactly those with a `src`, never more than were given |
| ProcessRepoFiles.KeepSrcSorted | process_repo_files.py:134-152 | keeping the images with a `src` preserves document order |
| ProcessRepoFiles.KeptImages | process_repo_files.py:132-152 | the kept images are exactly the `img` elements with a `src`, in increasing document order, and no more than there are `img` elements |
| ProcessRepoFiles.CollectFromTree | process_repo_files.py:132-164 | the loop over `img` elements produces exactly the scan's records for the tree |
| ProcessRepoFiles.CollectImageDataFromChapterFile | process_repo_files.py:115-164 | the scan of a file is the HTML tree's records, the converted tree's records, the conversion's error, or the no-parsed-document error, as the extension decides |
| ProcessRepoFiles.RecordsOfKept | process_repo_files.py:134-162 | records and kept images correspond one for one, each record built from its image |
| ProcessRepoFiles.ScanFollowsKeptImages | process_repo_files.py:132-162 | a scan has one record per kept image, in document order, holding the file path, the `src`, the alt text (empty when absent) and the image's context |
| ProcessRepoFiles.ScanOutcomeByPath | process_repo_files.py:122-132 | `ScanResult` models the scan outcome: the scan fails exactly for an unsupported extension or a failed AsciiDoc conversion |
| ProcessRepoFiles.ScanResultSkipping | process_repo_files.py:128-130 | the corrected scan skips an unsupported file with no records and otherwise agrees with the scan; it fails only when an AsciiDoc conversion fails |
| ProcessRepoFiles.ExtensionOfPlainName | process_repo_files.py:122 | a file name without a slash and not starting with a dot has as its lowered extension the extension word it ends with in any letter case |
| ProcessRepoFiles.UnsupportedExtensionFails | process_repo_files.py:128-132 | a file "notes.txt" makes the scan as written fail, while the corrected scan yields no records |
| GenerateAltText.AllTextGenerator.CreatePrompt | generate_alt_text.py:37-68 | no data URI gives no prompt; otherwise there is one `user` message with exactly two parts: the prompt text, then the data URI with the detail level |
| GenerateAltText.AllTextGenerator.GenerateAltText | generate_alt_text.py:70-81 | the returned alt text has no raw `<`, `>`, `"` or `'`, every `&` in it opens one of the five entities, and it unescapes back to the service's reply; `EscapedIsEscape` shows these three properties fix it as `html.escape(reply, quote=True)` |
| GenerateAltText.PromptStartsWithOpening | generate_alt_text.py:49-50 | `AllTextGenerator.PromptText` models the prompt: the prompt text starts with the two fixed opening lines |
| GenerateAltText.ContextSentenceIffContext | generate_alt_text.py:51 | the context sentence follows the opening exactly when some context text is non-empty; with no context the prompt is the opening alone |
| GenerateAltText.SentenceAfterOpening | generate_alt_text.py:49-51 | a sentence added after the opening only when there is context sits right after the opening exactly then, and without it nothing follows the opening |
| GenerateAltText.ContextLinesInOrder | generate_alt_text.py:52-54 | each context line is present exactly when its text is non-empty, in the order preceding, succeeding, caption, and nothing else is in the prompt |
| GenerateAltText.LinesAt | generate_alt_text.py:52-54 | after a head, each context line sits at the head's length plus the lengths of the lines before it, and is present exactly when its text is non-empty |
| GenerateAltText.LinesContained | generate_alt_text.py:52-54 | each non-empty text of the three context lines occurs in the whole prompt |
| GenerateAltText.FourPartOffsets | generate_alt_text.py:49-54 | each part of the concatenated prompt sits at the sum of the lengths before it |
| GenerateAltText.PromptContainsContext | generate_alt_text.py:52-54 | every non-empty context text appears in the prompt text |
| GenerateAltText.OccursInside | generate_alt_text.py:52-54 | a text written after its heading occurs in the prompt |
| GenerateAltText.EscapeChar | generate_alt_text.py:81 | the escape of one character contains no raw special character and no `&` outside an entity, and is the character itself exactly when that is neither special nor `&` |
| GenerateAltText.HtmlEscape | generate_alt_text.py:81 | `html.escape(s, quote=True)` contains no raw `<`, `>`, `"` or `'`, and every `&` in it opens `&amp;`, `&lt;`, `&gt;`, `&quot;` or `&#x27;` |
| GenerateAltText.UnescapeAfterChar | generate_alt_text.py:81 | unescaping an escaped character followed by more text gives back the character and then the rest unescaped |
| GenerateAltText.EscapedIsEscape | generate_alt_text.py:81 | a text with no raw special character and no raw `&` is the escape of what it unescapes to, so the escape is the only such text for a given reply |
| GenerateAltText.EscapeRoundTrip | generate_alt_text.py:81 | unescaping the escaped text gives back the text |
| Driver.YesInAnyCase | main.py:23 | a string lowers to "y" or "yes" exactly when it is one of them in some letter case |
| Driver.ConfirmedIff | main.py:23 | `Confirmed` models the answer check: the run goes on exactly for the answers "y" and "yes" in any letter case with any surrounding whitespace |
| Driver.AllowlistFromLines | main.py:44-47 | the allowlist has no more entries than the file has lines |
| Driver.AllowlistEntries | main.py:44-47 | every allowlist entry is non-empty, stripped and does not start with `#` |
| Driver.AllowlistMembers | main.py:44-47 | the allowlist holds exactly the stripped forms of the kept lines |
| Driver.AllowlistKeepsOrder | main.py:44-47 | the allowlist of two stretches of lines is the first stretch's allowlist followed by the second's, so file order is kept |
| Driver.SuffixNamed | main.py:40 | the lowered suffix is an extension word exactly when the file name ends with it after at least one character |
| Driver.FilterFileAcceptedIff | main.py:37-42 | `FilterFileAccepted` models the filter-file check: the filter file is accepted exactly when it exists, is a regular file and its name ends with ".txt" in any letter case after at least one character |
| Driver.DropDotLower | main.py:40 | comparing the suffix without its dot is comparing the suffix with the dot put back |
| Driver.ReadImageFilter | main.py:35-47 | no filter argument, or an empty one, gives no list; a rejected filter file is an error; otherwise the file's allowlist |
| Driver.FilterForScan | main.py:67 | an empty allowlist is passed on as "no filter"; a non-empty one is passed as it is |
| Driver.LowerTail | main.py:52 | lowering a tail of a name is taking that tail of the lowered name |
| Driver.AsciidoctorCheckedBeforeConversion | main.py:52-55 | `NeedsAsciidoctor` models the condition of the converter check: whenever some chapter file is sent to AsciiDoc conversion, the run checks for the converter first |
| Driver.CollectAllImages | main.py:59-69 | `CollectSpec` states the loop's result: the chapter loop returns the images of every scanned file in manifest order, or the first scan error |
| Driver.SkippedFilesNeverScanned | main.py:61-62 | `IsScanned` models the skip test: the outcome depends on the scan only at files whose name does not contain "cover.html" |
| Driver.CollectKeepsOrder | main.py:59-69 | collecting two stretches of files gives the first stretch's images followed by the second's, unless one fails |
| Driver.GenerateAll | main.py:73-76 | after the loop every record holds the generator's output for it under `generated_alt_text` and is otherwise unchanged |
| Driver.GeneratedRecord | main.py:76 | a generated record holds the generator's output and every other key as before |
| Driver.GroupOf | main.py:81-84 | a chapter's group holds only records with that chapter path, never more than there are records |
| Driver.GroupKeysSpec | main.py:78-84 | the chapter paths are distinct and are exactly the truthy `chapter_filepath` values of the records |
| Driver.GroupMapStep | main.py:81-84 | one more record with a truthy path is appended to its path's list, which is created when new; other groups and records without a path leave the grouping as it was |
| Driver.GroupOfFrom | main.py:81-84 | a non-empty group comes from some record with that path |
| Driver.GroupByChapter | main.py:78-84 | the grouping loop produces the chapter paths in first-occurrence order and each path's records in encounter order |
| Driver.DetectFormatIff | main.py:86-90 | `DetectFormat` models `detect_format`: a chapter is HTML exactly when its name ends with ".html" or ".htm" in any letter case after at least one character |
| Driver.BuildChapters | main.py:92-99 | one chapter record per group, in group order, with the group's path, images and detected format |
| Driver.GroupOfMember | main.py:81-84 | a record with a truthy path is in that path's group |
| Driver.GroupsNonEmpty | main.py:81-84 | every chapter path of the grouping has at least one record |
| Driver.RecordGrouped | main.py:81-84 | a record with a truthy chapter path is in the group of one of the chapter paths |
| Driver.ChaptersFromGrouping | main.py:78-99 | chapter paths are distinct, every chapter has an image, every image in a chapter carries that chapter's path, and every image with a truthy path is in its chapter |
| Driver.NoChapterNoKeys | main.py:81-84 | records without a truthy `chapter_filepath` give no groups |
| Driver.ScanRecordsNeverGrouped | main.py:82 | the scan's records are never grouped and the run builds no chapter from them |
| Driver.IntendedScanSpec | process_repo_files.py:152-162 | the corrected records are the scan's records, one for one, under the intended key names |
| Driver.AllInOneChapter | main.py:81-84 | records that all carry one path form that path's single group, in order |
| Driver.AllInGroup | main.py:81-84 | records that all carry one path are, in order, that path's group |
| Driver.OnlyKey | main.py:81-84 | records that all carry one path give that path as the only chapter path |
| Driver.IntendedRecordsName | process_repo_files.py:155 | every corrected record carries its source file under `chapter_filepath` |
| Driver.OneChapter | main.py:92-99 | records that all carry one path build a single chapter record holding all of them |
| Driver.IntendedScanFormsOneChapter | main.py:78-99 | with the corrected keys, a chapter file with a non-empty path and at least one image becomes exactly one chapter record holding all its images in document order |

## Left out

- The AsciiDoc converter runs as a subprocess (`check_asciidoctor_installed`, `convert_asciidoc_to_htmlbook`). The conversion outcome is a parameter of the scan (a tree or an error message). The installation check is modelled only as the decision to run it (`Driver.NeedsAsciidoctor`).
- The HTML parser, file reading and JSON loading are library and I/O work. The parsed tree and the manifest's `files` list are inputs. The manifest's absolute path is an input as well, since `os.path.abspath` reads the working directory.
- Argument parsing, `input()` prompts, printing and `sys.exit` are interactive plumbing. Only the answer predicate (`Driver.Confirmed`) is modelled.
- The vision-service client, the API-key check and the `.env` loading are network and environment calls. The service's reply is a parameter of `GenerateAltText`, and the model name is stored but not used.
- The chapter-rewrite loop at the end of `main.py` is an unimplemented placeholder with no behaviour.
- The functions the test suite calls but the sources do not define are not modelled. These include the alt-text replacement, image-path resolution, review CSV handling and backup.
- The end-to-end wiring of `main.py` is not modelled as one run. The steps are modelled one by one instead. The chapter loop takes the scan as a function parameter (`Driver.Scanner`), because `main.py` calls the scan with four arguments while it takes one. Likewise the generation loop takes the generator as a function of the record, because `main.py` calls `generate_alt_text` without the data URI. The script also imports the chapter types from a module that does not define them.
- `read_atlas_json` returns strings, but `main.py` reads `.name` on them as if they were paths. The model reads the file name as pathlib would (`Paths.BaseName`).
- When the manifest lists no files, `read_atlas_json` returns None and the script fails when it iterates over it. The chapter loop in the model starts from a list.
- `Driver.CollectAllImages`: the scan as written takes no allowlist (main.py:63-68 passes it, with three other arguments, to `collect_image_data_from_chapter_file`, which accepts only the path), so the model does not filter.
- Logging is not modelled.
- Strings.Lower: maps only ASCII letters. Every comparison in the core is against lower-case ASCII words, for which Unicode lowering gives the same outcome.
- Paths.BaseName: works on the path as written. pathlib's normalisation (a trailing `/`, repeated `/`, `.` components) is not modelled.
- ChaptersAndImages.NewImage: checks only that the required fields are present. The validator's type coercion (to `Path`, `str`, `bool`) is not modelled.
- Driver.GenerateAll: works on an array of dictionary values. The aliasing between the image list and the grouped lists is not modelled, since grouping only happens after generation.
- ProcessRepoFiles.ReadAtlasJson: assumes every manifest entry is a string.

## Findings

| source | as written | input that shows it | evidently intended | confidence | as-written member | corrected member |
|---|---|---|---|---|---|---|
| process_repo_files.py:128-132 | for an unsupported extension the scan logs "Skipping..." but then reads the never-bound tree and raises | a chapter file "notes.txt" | the file is skipped and yields no records | not executed; high | ProcessRepoFiles.UnsupportedExtensionFails | ProcessRepoFiles.ScanResultSkipping |
| process_repo_files.py:155-156 | records are written under the keys `filepath` and `image_path`, but grouping reads `chapter_filepath` (main.py:82), so every scanned record is dropped and no chapter is built | any HTML chapter with one `img` element that has a `src` | records keyed `chapter_filepath` and `image_src`, as the `Image` record and the grouping use; each chapter's images form one chapter record | not executed; high | Driver.ScanRecordsNeverGrouped | Driver.IntendedScanFormsOneChapter |
