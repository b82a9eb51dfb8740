# epub-annotator core, modelled in Dafny

The tool reads an HTML export of e-reader annotations. It pairs each note
heading with a note body and turns each pair into a record with a type,
`highlight` or `note`, and the body text. It then renders the records as an
"Annotations" chapter and appends that chapter to a loaded EPUB book. The
book is written to `temp/annotated_<name>`. If asked, the tool converts the
result to PDF next to it.

The project models the logic that `src/main.py` defines itself:

- `Text.dfy` (module `Text`): `str.strip()` and the substring test `in`.
- `Extraction.dfy` (module `Extraction`): `extract_annotations`. It works on
  one already-parsed list of sibling elements (tag, classes, text). The
  sibling search is `find_next_sibling`: it finds the first LATER body, not
  just the element right after the heading. The extraction loop is a method
  proved against a specification function. Lemmas characterise that
  function completely.
- `Markup.dfy` (module `Markup`): the loop that builds the chapter's HTML,
  proved against `ChapterMarkup`, plus lemmas about the layout of the
  result.
- `Epub.dfy` (module `Epub`): the book as a class with three sequence
  fields: `items`, `toc` and `spine`. Methods append to them in place.
- `Paths.dfy` (module `Paths`): the output path and the PDF path, using
  POSIX `os.path` rules (`basename`, `join`, `splitext`).
- `Convert.dfy` (module `Convert`): the outcome of the external converter.
- `Wrappers.dfy` (module `Wrappers`): `Option`.

Two behaviours of the code are worth stating outright:

- `find_next_sibling` (src/main.py:18) returns the first *later* `noteText`
  div and skips any elements in between, including other headings. So two
  headings before one body both pair with it
  (`Extraction.ScenarioTwoHeadingsOneBody`, `Extraction.SharedBody`).
- A body element found by the search always counts, even an empty one,
  because a BeautifulSoup tag is always truthy (src/main.py:19).

## Model

| member | source | states |
|---|---|---|
| `Text.LStrip` | src/main.py:21 | result is a suffix of the input; everything dropped is whitespace; result does not start with whitespace |
| `Text.RStrip` | src/main.py:21 | result is a prefix of the input; everything dropped is whitespace; result does not end with whitespace |
| `Text.Strip` | src/main.py:21 | result is a slice `s[i..j]` of the input with only whitespace outside it; it neither begins nor ends with whitespace, so the interior is unchanged |
| `Text.StripKeepsTrimmed` | src/main.py:21 | a string with no whitespace at either end is left unchanged |
| `Text.StripIdempotent` | src/main.py:21 | stripping twice gives the same result as stripping once |
| `Text.Contains` | src/main.py:22 | `pat in text` holds iff `pat` occurs at some position of `text` (case-sensitive) |
| `Extraction.TypeName` | src/main.py:22 | the type string is exactly `"highlight"` or `"note"`, and `"highlight"` iff the kind is `Highlight` |
| `Extraction.Classify` | src/main.py:22 | a heading is `Highlight` iff its text contains `"Highlight"` as a substring, otherwise `Note` |
| `Extraction.Headings` | src/main.py:16 | strictly increasing positions; a position is listed iff it holds a `div` with class `noteHeading` |
| `Extraction.NextBody` | src/main.py:18 | returns the first position after the heading that holds a `div` with class `noteText`; returns none iff no later sibling is one |
| `Extraction.ExtractAnnotations` | src/main.py:13-25 | the loop over the headings returns exactly `Extracted(doc)` |
| `Extraction.ExtractedCharacterized` | src/main.py:16-23 | one record per heading that has a later body, in document order; record `k` has the stripped text of its heading's body, and is a highlight iff that heading's text contains `Highlight` |
| `Extraction.ExtractedTypes` | src/main.py:21-22 | every record's type string is `highlight` or `note`, and its text is already stripped |
| `Extraction.ExtractedAtMostHeadings` | src/main.py:16-23 | there are never more records than headings |
| `Extraction.OrphanHeadingDropped` | src/main.py:18-19 | a heading with no later body yields no record and no failure, so there are strictly fewer records than headings |
| `Extraction.NoOrphansOneRecordPerHeading` | src/main.py:16-23 | when every heading has a later body, there is exactly one record per heading, in heading order |
| `Extraction.OrphansAreTrailing` | src/main.py:18 | if one heading has no later body, no heading after it has one either |
| `Extraction.SharedBody` | src/main.py:18 | two headings with no body between them find the same body |
| `Extraction.ScenarioHighlight` | src/main.py:8-25 | heading `Highlight` with body `" Hello world "` yields one record `("Hello world", highlight)` |
| `Extraction.ScenarioTwoHeadingsOneBody` | src/main.py:18 | two headings followed by one body yield two records with the same text |
| `Markup.BuildMarkup` | src/main.py:33-37 | the loop that grows the string returns exactly `ChapterMarkup(annotations)` |
| `Markup.BlocksAppend` | src/main.py:34-37 | the markup for a concatenation of record lists is the concatenation of their markups, so records are rendered in order |
| `Markup.EmptyChapterIsHeader` | src/main.py:33 | no records give only `<h1>Annotations</h1>\n` |
| `Markup.ChapterStartsWithHeader` | src/main.py:33 | every chapter starts with `<h1>Annotations</h1>\n` |
| `Markup.ChapterLayout` | src/main.py:33-37 | record `k` appears as `<div class="annotation TYPE">\n`, `<p>TEXT</p>\n`, `</div>\n`, after the chapter for the earlier records and before the blocks of the later ones |
| `Markup.TextAppearsVerbatim` | src/main.py:36 | every record's text appears unchanged and unescaped in the chapter |
| `Markup.UnescapedTextInjects` | src/main.py:36 | a text that closes its block and opens another gives the same chapter as two records, because text is not escaped |
| `Epub.Book.AddItem` | src/main.py:47 | the item list becomes the old list plus the chapter at the end |
| `Epub.Book.AppendToc` | src/main.py:50 | the table of contents becomes the old one plus the chapter at the end |
| `Epub.Book.AppendSpine` | src/main.py:53 | the spine becomes the old one plus the chapter at the end |
| `Epub.ApplyAnnotations` | src/main.py:33-53 | the chapter is titled `Annotations`, stored as `annotations.xhtml`, and holds `ChapterMarkup(annotations)`; items, toc and spine each become their old value plus that chapter |
| `Epub.ApplyTwice` | src/main.py:47-53 | two updates append two identical chapters to every list, with no deduplication |
| `Paths.Basename` | src/main.py:83 | result holds no `/`, is a suffix of the path, and is preceded by `/` unless it is the whole path |
| `Paths.Join` | src/main.py:83 | an absolute second part replaces the first; after an empty first part or one ending in `/` the parts are concatenated; otherwise one `/` is inserted; in every case the result ends with the second part |
| `Paths.JoinKeepsBasename` | src/main.py:83 | the final component of a joined path is the final component of its second part |
| `Paths.OutputPath` | src/main.py:83 | the output path is `temp` + `/` + `annotated_` + basename, and its own basename is `annotated_` + the input's basename |
| `Paths.SplitExt` | src/main.py:97 | root + ext is the path; a non-empty ext is a dot followed by no dot and no `/`, and follows a non-dot in the final component; an empty ext means the final component has no dot after a non-dot |
| `Paths.PdfPath` | src/main.py:97 | the path ends in `.pdf`, and what comes before that is the root from `splitext` |
| `Paths.PdfOfOutput` | src/main.py:83-97 | the PDF path is `temp/annotated_` + the basename with its last extension removed (or the whole basename if it has no dot) + `.pdf` |
| `Paths.ScenarioPaths` | src/main.py:83-97 | `books/novel.epub` gives `temp/annotated_novel.epub` and then `temp/annotated_novel.pdf` |
| `Convert.ConvertToPdf` | src/main.py:58-68 | true iff the converter ran and exited with status 0; a missing executable gives false |

## Left out

- Reading the annotation file and parsing it with BeautifulSoup/lxml (src/main.py:10-11). The model takes the parsed sibling list and each element's `get_text()` as given, because tolerant tree building belongs to the library.
- Nested documents: `find_all` searches the whole tree, but the model covers the children of a single parent, the case where headings and bodies are siblings.
- Text.IsSpace: whitespace is the ASCII part of what `str.isspace` accepts (space, `\t`, `\n`, `\v`, `\f`, `\r`, `\x1c`-`\x1f`). Unicode whitespace such as U+00A0 or U+2028 is not modelled.
- `epub.read_epub` and `epub.write_epub` (src/main.py:30, src/main.py:56): the book is taken as already loaded, and serialisation is not modelled. `epub.EpubHtml` becomes a plain `Item` value with a title, a file name and content (src/main.py:40-44). The id that `add_item` assigns inside the library is not modelled. Entries already in toc and spine are modelled with the same `Item` type, although ebooklib also allows links, sections and strings there.
- `convert_to_pdf` (src/main.py:58-68): the subprocess is not modelled. Only its outcome is modelled (exit status or missing executable), not its output file or the messages it prints. An exit status of 0 is not evidence that a PDF exists. Other `OSError`s raised by `subprocess.run` (for example a `PermissionError` when `ebook-convert` is on the path but not executable) are not caught at src/main.py:63-68 and propagate out of `main`; `RunOutcome` has no case for them.
- argparse, the `print` calls and the order of steps in `main` (src/main.py:70-100), other than the two path expressions.
- Paths: only POSIX path rules (separator `/`) are modelled, not Windows `ntpath`.
