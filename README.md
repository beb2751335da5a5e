# markdown-to-epub, modelled in Dafny

`markdown_to_epub.py` turns a directory of Markdown chapters into an EPUB 3
book. `MarkdownToEpub` finds the chapter files (`chapter-*.md`, or `chap-*.md`
when there are none) and sorts them by the number in their names. It takes each
chapter's title from its first level-one heading, writes one XHTML page per
chapter into a staging directory and records the chapter. It then writes the
package document (`content.opf`, with its manifest and spine) and the
navigation document (`nav.xhtml`, with its table of contents and landmarks).
Last, it zips the staging directory with `mimetype` first and uncompressed. The
same discovery feeds `_consolidate_chapters`, which joins the stripped chapters
into one Markdown manuscript. `fix_special_chars.py` rewrites typographic
characters (curly quotes, dashes, the ellipsis, a non-breaking space, a bullet
and a literal backslash-n) to plain ASCII before the manuscript goes to the PDF
tool.

The project has seven modules:

- `Wrappers` (`wrappers.dfy`): `Option`, `Result` and `Outcome`.
- `PyText` (`pytext.dfy`): the Python string behaviour the code relies on.
  - `str.replace`: leftmost, non-overlapping.
  - `str.isspace` and `strip`.
  - `''.join`.
  - `int()` on ASCII digits, `f"{n}"` and `f"{n:02d}"`.
- `XmlEscape` (`xml_escape.dfy`): `_escape_xml` and its decoder.
- `SpecialChars` (`fix_special_chars.dfy`): `fix_special_chars` as a loop
  method, plus the single-pass function that specifies it.
- `ChapterDiscovery` (`chapter_discovery.dfy`): the two globs and the `int(re.search(...))` sort key.
  - It models Python's stable `sorted` and the error raised by the first file without a number.
- `ChapterTitle` (`chapter_title.dfy`): leftmost-match semantics of `re.search(r'^#\s+(.+)$', content, re.MULTILINE)`.
- `Epub` (`epub.dfy`): the records, pages, package and navigation documents, the manuscript join and the archive entry order.
  - Also the class `MarkdownToEpub`. Its methods update its fields in place:
    - `chapters`, the Python object's own list of chapter records;
    - `pages`, the chapter pages written into the staging directory;
    - `packageDoc` and `navigation`, the contents of `content.opf` and `nav.xhtml`.
  - The Python object has no `pages`, `packageDoc` or `navigation` fields. These fields stand for the files it writes.

The generated documents are modelled as the values the code fills its templates with, not as markup text:

- `XhtmlPage`: language, escaped `<title>` and body.
- `PackageDocument`: the metadata values, the manifest items and the spine idrefs.
- `NavDocument`: the table-of-contents links and the landmarks.

In two places the code is not what was evidently intended (see "## Findings").
There, `SpineAsWritten`, `TocAsWritten`, `LandmarksAsWritten` and
`CoverMetaAsWritten` model the code as written, and lemmas exhibit the
discrepancy. `GenerateContentOpf` and `GenerateNavXhtml`, and the `BuildSpine`, `BuildToc` and `BuildLandmarks` methods behind them, deliberately build the corrected values, not what the Python code writes.

- The spine, table of contents and landmarks list the cover page only when the manifest does.
- The cover meta is written only together with the `cover-image` item.

The following inputs are parameters:

- the Markdown converter, `convert`;
- whether the cover file exists, `coverExists`;
- the random book id;
- the two formatted clock readings;
- the input directory listing;
- the staging directory's `os.walk` order.

## Model

| member | source | states |
|---|---|---|
| PyText.Strip | markdown_to_epub.py:116 | the result is a slice of the input with only white space cut from each end, and it neither starts nor ends with white space |
| PyText.DecimalRoundTrip | markdown_to_epub.py:305 | `f"{n}"` is a non-empty digit string without a leading zero that reads back as `n` |
| PyText.Pad2RoundTrip | markdown_to_epub.py:312 | `f"{n:02d}"` has at least two digits, starts with `0` only when it is exactly two digits long, and reads back as `n`; with the read-back this fixes the form uniquely |
| PyText.Pad2Injective | markdown_to_epub.py:312 | distinct chapter numbers give distinct two-digit forms |
| PyText.DigitRun | markdown_to_epub.py:280 | the `\d+` run is the longest prefix of digits |
| PyText.Replace | fix_special_chars.py:27 | models `str.replace`: every leftmost, non-overlapping occurrence is replaced; `ReplaceAbsent`, `ReplaceCharConcat` and `ApplyAllIsTranslit` state its properties |
| PyText.ReplaceAbsent | fix_special_chars.py:27 | replacing a substring that does not occur leaves the text unchanged |
| XmlEscape.EscapeXml | markdown_to_epub.py:731-739 | models `_escape_xml` as the five chained replaces, `&` first; the lemmas below state what they guarantee |
| XmlEscape.EscapeIsSinglePass | markdown_to_epub.py:732-739 | the five chained replaces, `&` first, act as one pass that maps each of `& < > " '` to its entity and keeps every other character |
| XmlEscape.EscapeRoundTrip | markdown_to_epub.py:732-739 | decoding the escaped text gives the original text back |
| XmlEscape.DecodableIsWellFormed | markdown_to_epub.py:732-739 | any decodable text has no raw `< > " '` and every `&` begins an entity |
| XmlEscape.EscapedIsWellFormed | markdown_to_epub.py:732-739 | escaped text has no raw `< > " '`, and each `&` in it begins one of the five entities |
| XmlEscape.EscapeUnchangedIff | markdown_to_epub.py:732-739 | the text is returned unchanged if and only if it holds none of the five characters |
| SpecialChars.FixSpecialChars | fix_special_chars.py:7-29 | the loop applies the ten replacements in dictionary order, and its result is the single-pass clean-up `Clean` |
| SpecialChars.SequentialIsSinglePass | fix_special_chars.py:26-27 | the ten sequential `str.replace` calls equal one left-to-right pass |
| SpecialChars.CleanHasNoKeys | fix_special_chars.py:9-27 | none of the ten replaced sequences, a literal backslash-n included, remains in the result |
| SpecialChars.CleanHasNoLiteralNewline | fix_special_chars.py:23-27 | no backslash-n remains, including those that a replacement text would form with what precedes it |
| SpecialChars.CleanIdentity | fix_special_chars.py:26-29 | a text containing none of the keys is returned unchanged |
| SpecialChars.Idempotent | fix_special_chars.py:26-29 | running the clean-up twice gives the result of running it once |
| SpecialChars.CleanConcat | fix_special_chars.py:26-27 | the clean-up splits over a concatenation unless the cut falls between a backslash and an `n` |
| SpecialChars.CleanOfKey | fix_special_chars.py:9-24 | each key cleans to its own replacement text |
| SpecialChars.EachKeyBecomesItsText | fix_special_chars.py:9-27 | a key between any two texts becomes its replacement text, and the texts around it are cleaned independently |
| SpecialChars.OtherCharsKept | fix_special_chars.py:26-27 | any other character, apart from a backslash or an `n`, is kept in place |
| ChapterDiscovery.Glob | markdown_to_epub.py:279-285 | a file is matched if and only if it is in the directory and its name is the prefix, anything, then `.md` |
| ChapterDiscovery.GlobAppend | markdown_to_epub.py:279-285 | globbing keeps listing order: the glob of two listings one after the other is the glob of the first, then the glob of the second |
| ChapterDiscovery.GlobSnoc | markdown_to_epub.py:279-285 | one more listed file is appended to the matches exactly when its name matches, after all earlier matches |
| ChapterDiscovery.SearchFrom | markdown_to_epub.py:280 | finds the leftmost place where the prefix is followed by a digit, with no such place before it |
| ChapterDiscovery.NumberAfter | markdown_to_epub.py:280 | the search finds a number if and only if the prefix is followed by a digit somewhere in the name |
| ChapterDiscovery.KeyOfName | markdown_to_epub.py:280 | a name of the form prefix, digits, then a non-digit has the value of those digits as its key |
| ChapterDiscovery.FirstUnnumbered | markdown_to_epub.py:278-281 | it is empty if and only if every file carries a number; otherwise it names the first file that does not |
| ChapterDiscovery.InsertMultiset | markdown_to_epub.py:278-281 | inserting adds exactly the one file |
| ChapterDiscovery.InsertWithKey | markdown_to_epub.py:278-281 | inserting puts the new file ahead of the files with the same key |
| ChapterDiscovery.InsertSorted | markdown_to_epub.py:278-281 | inserting into a sorted list keeps it sorted |
| ChapterDiscovery.SortBy | markdown_to_epub.py:278-287 | models `sorted(..., key=...)` as an insertion sort; `SortFacts` and `StableSortUnique` show it is the stable sort |
| ChapterDiscovery.SortFacts | markdown_to_epub.py:278-281 | the sort is a permutation, ordered by key, and keeps files with equal keys in listing order |
| ChapterDiscovery.StableSortUnique | markdown_to_epub.py:278-281 | two sorted lists whose files of each key come in the same order are equal, so the stable sort is unique |
| ChapterDiscovery.Discover | markdown_to_epub.py:278-290 | fails with the no-chapter error if and only if both globs are empty; on success, the list is not empty |
| ChapterDiscovery.DiscoveryOutcome | markdown_to_epub.py:278-290 | succeeds if and only if the chosen glob matched files and all of them are numbered; then it returns them as a stable sort by number, and otherwise names an unnumbered file |
| ChapterDiscovery.DiscoverIsTheStableSort | markdown_to_epub.py:278-287 | any stable ordering by number of the chosen files is the discovered list |
| ChapterTitle.LineEnd | markdown_to_epub.py:304 | the line ends at the first line break at or after the position, or at the end of the text |
| ChapterTitle.CaptureAt | markdown_to_epub.py:304 | a match at a position has the latest group start that the greedy `\s+` allows, and there is none if no group start works |
| ChapterTitle.MatchFrom | markdown_to_epub.py:304 | finds the leftmost match at or after a position, with no match before it |
| ChapterTitle.FindTitle | markdown_to_epub.py:304 | matches nothing if and only if no position matches; otherwise returns the rest of the line from the leftmost match's group, which is non-empty and has no line break |
| ChapterTitle.ChapterTitleOf | markdown_to_epub.py:304-305 | the title is the capture of the first match of the heading pattern when there is one, and exactly `Chapter <idx>` otherwise; it is non-empty with no line break |
| ChapterTitle.HeadingTitle | markdown_to_epub.py:304-305 | when no earlier line starts with `#`, the pattern `#`, any non-empty white-space run (which may cross line breaks), then a title that starts with something other than white space and ends its line, gives exactly that title |
| ChapterTitle.HeadingAt | markdown_to_epub.py:304 | the same, stated on positions in the text |
| ChapterTitle.DoubleHashNoMatch | markdown_to_epub.py:304 | a `##` heading never matches |
| ChapterTitle.NoHeadingFallback | markdown_to_epub.py:305 | a text with no `#` gets `Chapter <idx>` |
| ChapterTitle.LoneHashTakesNextLine | markdown_to_epub.py:304 | since `\s` matches line breaks, a line holding only `#` and white space takes the next line that does not start with white space as the title, for any text around it |
| Epub.Publisher | markdown_to_epub.py:424 | the configured publisher if there is one, the author otherwise |
| Epub.LastDot | markdown_to_epub.py:407 | the last `.` of the name, with no `.` after it |
| Epub.CoverExt | markdown_to_epub.py:407 | the cover extension contains neither `.` nor `/` |
| Epub.CoverExtOf | markdown_to_epub.py:407 | a cover at `<dir>/<stem>.<ext>` has extension `ext`, whatever dots the stem holds |
| Epub.CoverExtEmptyIff | markdown_to_epub.py:407 | the extension is empty if and only if the final component has no last dot strictly inside it; otherwise it is the text after that dot |
| Epub.CoverMediaType | markdown_to_epub.py:408 | the type is `image/jpeg` for the extension `jpg` and `image/<ext>` for every other extension; it is `image/jpeg` if and only if the extension is `jpg` or `jpeg` |
| Epub.ChapterRecord | markdown_to_epub.py:320-325 | models the record appended for chapter `idx`: id `chapNN`, href `Text/chapter-NN.xhtml`, its title and file name; `RecordFacts` states its properties |
| Epub.RecordsAt | markdown_to_epub.py:297-325 | one record per discovered file, the i-th built from file i as chapter i + 1 |
| Epub.RecordFacts | markdown_to_epub.py:312-325 | records are numbered 1..n in order whatever the file names carry; ids read back as their positions and are pairwise distinct; each title comes from its own file |
| Epub.ChapterPage | markdown_to_epub.py:327-342 | models `_generate_xhtml` as the values it fills in: the language, the escaped title and the body; `ChapterPageTitle` states its properties |
| Epub.ChapterPageTitle | markdown_to_epub.py:327-342 | the page's `<title>` text has no raw markup and decodes back to the chapter title; the body and language are unchanged |
| Epub.PagePathInjective | markdown_to_epub.py:312-313 | different chapter numbers have different page paths |
| Epub.StagedPages | markdown_to_epub.py:311-318 | chapter i is staged at `OEBPS/Text/chapter-NN.xhtml` as the page built from its own title and converted text |
| Epub.StagedElsewhere | markdown_to_epub.py:311-318 | writing the pages leaves every other staged path as it was |
| Epub.ManifestOf | markdown_to_epub.py:402-414 | models the manifest list: `nav`, `css`, the cover items when the cover is configured and exists, then the chapters; `ManifestLayout` and `ManifestIdsUnique` state its properties |
| Epub.SpineAsWritten | markdown_to_epub.py:416-421 | models the spine as written: `cover` whenever a cover is configured, then the chapter ids; `SpineResolvesIff` and `CoverIdrefDangles` state what goes wrong |
| Epub.Spine | markdown_to_epub.py:416-421 | the corrected spine, with the manifest's cover test; `CorrectedSpineResolves` states that it resolves |
| Epub.CoverMetaAsWritten | markdown_to_epub.py:439 | models the cover meta as written: always `cover-image`; `CoverMetaDangles` states what goes wrong |
| Epub.CoverMeta | markdown_to_epub.py:439 | the corrected cover meta, present only with the cover item; `CorrectedCoverMetaResolves` states that it resolves |
| Epub.TocAsWritten | markdown_to_epub.py:465-469 | models the table of contents as written: the cover whenever it is configured, then one entry per chapter with its href and escaped title |
| Epub.Toc | markdown_to_epub.py:465-469 | the corrected table of contents, with the manifest's cover test; `TocFollowsSpine` relates it to the spine |
| Epub.LandmarksAsWritten | markdown_to_epub.py:472-477 | models the landmarks as written: the cover whenever it is configured, the table of contents, then the first chapter if there is one |
| Epub.Landmarks | markdown_to_epub.py:472-477 | the corrected landmarks, with the manifest's cover test; `LandmarkFacts` states their properties |
| Epub.ManifestLayout | markdown_to_epub.py:402-414 | the manifest is `nav`, `css`, then the two cover items exactly when the cover is configured and exists (the image at `Images/cover.<ext>` with the extension's media type, then the cover page), then one item per chapter in order |
| Epub.ManifestIdsUnique | markdown_to_epub.py:402-414 | the manifest ids are pairwise distinct |
| Epub.ChapterIdsInManifest | markdown_to_epub.py:413-414 | every chapter id is a manifest id |
| Epub.NoCoverItems | markdown_to_epub.py:406-410 | without an existing cover file, the manifest has neither a `cover` nor a `cover-image` item |
| Epub.CoverItems | markdown_to_epub.py:406-410 | with an existing cover file, it has both |
| Epub.SpineResolvesIff | markdown_to_epub.py:406-421 | as written, every spine idref names a manifest item if and only if the cover is unset or its file exists |
| Epub.CoverIdrefDangles | markdown_to_epub.py:416-421 | a configured cover whose file is missing leaves spine entry `cover` naming no manifest item |
| Epub.CorrectedSpineResolves | markdown_to_epub.py:416-421 | with the manifest's own cover test, every spine idref names a manifest item |
| Epub.CoverMetaDangles | markdown_to_epub.py:439 | as written, the cover meta names `cover-image` even when there is no such item |
| Epub.CorrectedCoverMetaResolves | markdown_to_epub.py:439 | the corrected cover meta is present if and only if the cover item is, and then names a manifest item |
| Epub.TocFollowsSpine | markdown_to_epub.py:465-469 | the corrected table of contents has one entry per spine entry, each linking to the page of the manifest item that spine entry names |
| Epub.TocLabel | markdown_to_epub.py:469 | a chapter's entry links to its page, and its label has no raw markup and decodes back to the title |
| Epub.TocChapters | markdown_to_epub.py:468-469 | the chapter entries come last, one per record, in order |
| Epub.AsWrittenAgrees | markdown_to_epub.py:416-477 | when the cover is unset or its file exists, the spine, table of contents and landmarks as written are the corrected ones |
| Epub.LandmarkFacts | markdown_to_epub.py:472-477 | the landmarks always hold the table of contents; they hold the cover if and only if the manifest has it; they hold a `bodymatter` entry if and only if there are chapters, and it points at the first chapter |
| Epub.PackageConsistent | markdown_to_epub.py:402-439 | the package document has pairwise distinct manifest ids, and its spine and cover meta name only manifest items |
| Epub.JoinedLength | markdown_to_epub.py:110-127 | n parts joined give their total length plus n - 1 separators |
| Epub.JoinedSplit | markdown_to_epub.py:110-127 | the join splits at any part into the join before it, a separator, and the join after it |
| Epub.OtherFilesMembers | markdown_to_epub.py:717-721 | a staged path is packaged after `mimetype` if and only if its name is not `mimetype` |
| Epub.PackageEntriesFacts | markdown_to_epub.py:708-724 | the archive starts with `mimetype`, stored; every later entry is deflated and not named `mimetype`; every other staged file gets exactly such an entry |
| Epub.MarkdownToEpub.constructor | markdown_to_epub.py:31-35 | a new converter holds the configuration and book id, no chapters, no staged pages and no documents |
| Epub.MarkdownToEpub.ProcessChapters | markdown_to_epub.py:273-325 | a discovery error is returned and nothing changes; otherwise the records of the discovered files are appended and their pages staged over what was there |
| Epub.MarkdownToEpub.AddChapters | markdown_to_epub.py:297-325 | the loop appends the records of the files in order, and stages each page at its path |
| Epub.MarkdownToEpub.BuildManifest | markdown_to_epub.py:402-414 | the loop builds the manifest `ManifestOf` of the current chapters |
| Epub.MarkdownToEpub.BuildSpine | markdown_to_epub.py:416-421 | the loop builds the spine, with the cover page only when the manifest lists it |
| Epub.MarkdownToEpub.GenerateContentOpf | markdown_to_epub.py:397-460 | sets the package document: escaped title, author and publisher, the `urn:uuid:` identifier, the manifest, the corrected spine and the corrected cover meta; nothing else changes |
| Epub.MarkdownToEpub.BuildToc | markdown_to_epub.py:465-469 | the loop builds the table of contents, with the cover only when the manifest lists it |
| Epub.MarkdownToEpub.BuildLandmarks | markdown_to_epub.py:472-477 | builds the landmarks, with the cover only when the manifest lists it |
| Epub.MarkdownToEpub.GenerateNavXhtml | markdown_to_epub.py:462-477 | sets the navigation document from the current chapters and the cover test; nothing else changes |
| Epub.MarkdownToEpub.ConsolidateChapters | markdown_to_epub.py:85-127 | returns the discovery error, or the stripped texts of the discovered chapters joined by `\n\n---\n\n` |
| Epub.MarkdownToEpub.PackageEpub | markdown_to_epub.py:700-724 | the loop writes `PackageEntries(walk)`: `mimetype` stored first, then every other staged file deflated, in walk order |

## Left out

- `_convert_to_pdf`: it runs Pandoc and LaTeX in a subprocess, which is outside the model.
- `build`: the orchestration is left out, as are its timing, `print` reporting and `_cleanup`. The model's operations are the steps `build` calls.
- `load_config` and `main`: argument and YAML parsing are outside the model. `Config` holds the five keys the core reads besides `input_dir` and `output`, whose directory listing and staged tree are the `dir` and `walk` parameters. `title`, `author` and `language` are strings; `cover` and `publisher` are optional strings. Values of other YAML types are not modelled.
- `fix_special_chars.main`: it only reads and writes files.
- The Markdown converter is a parameter (`convert`), taken to be a pure function. The model therefore assumes `md.reset()` leaves no state between chapters.
- File I/O is not modelled. The input directory is a sequence of (name, text) pairs as a UTF-8 text-mode read returns them, in listing order. Directories whose names match a glob and permission errors are not modelled.
- `_create_structure`, `_generate_mimetype`, `_generate_container_xml` and `_generate_css` are not modelled. They create directories and write fixed text. `pages` tracks only the chapter pages.
- `_copy_assets` and `_generate_cover_xhtml` are not modelled.
  - They copy the cover image to `Images/cover<suffix>`.
  - They write a cover page that holds the language, the escaped title and author in the image's `alt` text, and the image link `../Images/cover<suffix>`.
  - The model therefore does not relate that file name to the manifest's `Images/cover.<ext>`. The two differ for a cover file without an extension: the manifest says `Images/cover.`, the copy is `Images/cover`.
- The fixed template text of the chapter pages, `content.opf` and `nav.xhtml` is not modelled. That includes the accessibility metadata and the indentation. The model keeps the values the templates are filled with.
- Epub.MarkdownToEpub.GenerateContentOpf: `uuid.uuid4()` and the two `datetime.now()` readings are parameters, and `strftime` formatting is not modelled.
- Epub.MarkdownToEpub.PackageEpub: the ZIP bytes, and the removal of an existing output file, are not modelled. The `os.walk` order is a parameter. The model does not require `mimetype` to be staged.
- Epub.CoverExt: paths are split at `/` only, with no normalisation and no Windows separators. A final component that starts or ends with its only or last dot has no suffix.
- ChapterDiscovery.Glob: glob matching is case-sensitive, as on POSIX systems. On Windows, `pathlib` matches case-insensitively, which is not modelled.
- `\d` and `int()` are modelled on ASCII digits only. Python also accepts other Unicode decimal digits there.
- `Path(cover).exists()` is the parameter `coverExists`, not a file-system query.

## Findings

| source | as written | input that shows it | evidently intended | confidence | as-written member | corrected member |
|---|---|---|---|---|---|---|
| markdown_to_epub.py:416-421 | the spine, table of contents and landmarks list the cover whenever `cover` is configured, but the manifest lists the cover page only when the file also exists (line 406) | `cover: missing.jpg` with no such file: the spine has `<itemref idref="cover"/>` but no manifest item has id `cover`, and the table of contents links to a `Text/cover.xhtml` that was never written | the spine, table of contents and landmarks use the manifest's test: cover configured and its file present | not executed | Epub.CoverIdrefDangles | Epub.CorrectedSpineResolves |
| markdown_to_epub.py:439 | `<meta name="cover" content="cover-image"/>` is written unconditionally | no `cover` key in the configuration: the meta names `cover-image`, which is not in the manifest | the cover meta is written only together with the `cover-image` item | not executed | Epub.CoverMetaDangles | Epub.CorrectedCoverMetaResolves |
