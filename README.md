# pdf_to_md: a verified model of the PDF-to-Markdown converter

`pdf_to_md.py` turns the text of a legal document's PDF into Markdown. The
file starts with a heading `# <file name without extension>`. Every page's
text is then split into lines. Each line is stripped, and blank lines are
dropped. A line that `detect_title` accepts becomes a `## ` heading; any
other line is written as it is. After each page comes a separator and the
marker `*第 i 页，共 n 页*` ("page i of n"). A batch mode converts every
`.pdf` file in a directory into the given output directory, by default a
`markdown` sub-directory, and counts the conversions that succeed.

The model is written in Dafny, in seven modules in six files:

- `Seqs` (`seqs.dfy`): general facts about sequences, used by the other proofs.
- `Strings` (`strings.dfy`): the Python `str` operations the converter calls.
  - `strip()` uses exactly the characters Python's `str.isspace()` accepts.
  - `split('\n')`, `startswith`, `endswith`, `in`, `isupper()`, `lower()`.
  - `str(n)` for page numbers.
- `Options` and `Paths` (`paths.dfy`): `None` defaults, and `os.path.basename`, `os.path.splitext` and two-argument `os.path.join` on POSIX paths.
- `Titles` (`titles.dfy`): `detect_title`.
- `Markdown` (`markdown.dfy`): the rendering loops of `pdf_to_markdown` and the whole conversion of one file.
  - `Block` names what each entry of `markdown_content` stands for: the header, a heading line, a plain line or a page marker.
  - `Text` gives each entry's exact f-string.
  - `Document` is the functional specification of the entry list.
  - The imperative method `RenderContent` keeps the source's nested loops, appends to `content` one string at a time, and is proved equal to the texts of `Document`.
- `Batch` (`batch.dfy`): the `.pdf` filter and the loop of `batch_convert`.
  - `ConvertAll` keeps the `success_count` loop as a method.
  - It returns the calls it made and the count.

## Model

| member | source | states |
|---|---|---|
| Strings.Strip | pdf_to_md.py:103 | The stripped line has no white space at either end, and it is empty exactly when the line is all white space. |
| Strings.StripInfix | pdf_to_md.py:103 | The stripped line occurs in the original line with only white space before and after it. |
| Strings.StripIdempotent | pdf_to_md.py:103 | Stripping a stripped line changes nothing. |
| Strings.Split | pdf_to_md.py:99 | `text.split('\n')` gives at least one piece, none of which holds '\n', and joining the pieces with '\n' gives the text back. |
| Strings.SplitJoin | pdf_to_md.py:99 | Splitting the '\n'-join of '\n'-free pieces gives exactly those pieces (the inverse of `Split`). |
| Strings.ContainsIff | pdf_to_md.py:56 | `keyword in text` holds exactly when the keyword occurs at some position of the text. |
| Strings.Lower | pdf_to_md.py:139 | `lower()` keeps the length, turns each capital letter into its lower-case letter, keeps every other character, and so leaves no capital letter. |
| Strings.IsUpper | pdf_to_md.py:50 | A string `isupper()` accepts is changed by `lower()`: it holds a capital letter. |
| Strings.Decimal | pdf_to_md.py:115 | A page number is rendered as a non-empty run of digits without a leading zero. |
| Strings.DecimalRoundTrip | pdf_to_md.py:115 | Reading the rendered digits back gives the page number. |
| Paths.Basename | pdf_to_md.py:81 | The base name holds no '/', ends the path, and is preceded by '/' whenever it is not the whole path. |
| Paths.SplitExt | pdf_to_md.py:67 | Root plus extension is the path. The extension is empty, or one leading '.' with no other '.' and no '/'. |
| Paths.SplitExtRoot | pdf_to_md.py:67 | An extension is split off only when the root's last component has a character other than '.', and a path whose last component has one keeps that property in its root. |
| Paths.SplitExtJoin | pdf_to_md.py:82 | Splitting `root + ext` gives back `root` and `ext` when `ext` is a single extension and root's last component has a non-dot character. |
| Paths.MarkdownPathFor | pdf_to_md.py:66-68 | The default output path starts with the input path's root and ends with ".md". |
| Paths.MarkdownPathSplits | pdf_to_md.py:66-68 | When the input's file name has a character other than '.', the default output path splits into exactly the input's root and the extension ".md". |
| Paths.FlatRoot | pdf_to_md.py:82 | The root of a name without '/' is a prefix of that name and holds no '/'. |
| Paths.MarkdownNameRelative | pdf_to_md.py:149 | A file name that does not start with '/' gives an output name that does not either. |
| Paths.MarkdownNameFlat | pdf_to_md.py:149 | A file name without '/' still has none once its extension is replaced by ".md". |
| Paths.PathJoinParts | pdf_to_md.py:148-150 | The joined path ends with the second part, and starts with the first unless the second is absolute. |
| Paths.PathJoinSeparator | pdf_to_md.py:148-150 | Joining a non-empty directory and a relative name gives the directory, one '/' unless it already ends with one, then the name. |
| Paths.BasenameOfJoin | pdf_to_md.py:148 | Joining a directory and a file name without '/' gives a path whose base name is that file name. |
| Titles.DetectTitle | pdf_to_md.py:26-59 | A line accepted as a heading has a length within the bounds and none of '，', '；', '：'. |
| Titles.StartsWithAnyIff | pdf_to_md.py:41-43 | The loop over the starters succeeds exactly when some starter begins the line. |
| Titles.EndsWithAnyIff | pdf_to_md.py:45-47 | The loop over the enders succeeds exactly when some ender ends the line. |
| Titles.ContainsAnyIff | pdf_to_md.py:55-57 | The loop over the keywords succeeds exactly when some keyword occurs in the line. |
| Titles.DetectTitleIff | pdf_to_md.py:34-57 | A heading is accepted exactly when the length guard holds, the punctuation guard holds, and the line starts with a starter, ends with an ender, is upper case, or contains a legal keyword. |
| Titles.KeywordAnywhere | pdf_to_md.py:53-57 | With both guards met, a legal keyword anywhere in the line makes it a heading. |
| Markdown.Text | pdf_to_md.py:83-115 | Every entry the converter appends is non-empty and ends with a newline. |
| Markdown.TextLinesDistinct | pdf_to_md.py:108-112 | Two line entries of stripped, non-empty lines have the same text only when they are the same entry, so a heading and a plain line never read alike. |
| Markdown.Concat | pdf_to_md.py:121 | `''.join(parts)` is empty exactly when every part is. |
| Markdown.ConcatAppend | pdf_to_md.py:121 | Joining two lists one after the other is joining their concatenation. |
| Markdown.KeptLines | pdf_to_md.py:102-105 | A page keeps at most as many lines as its text has pieces. |
| Markdown.PageLines | pdf_to_md.py:99-105 | Every line a page contributes is non-empty and has no white space at either end. |
| Markdown.StemOf | pdf_to_md.py:81-82 | The heading's stem holds no '/' and is a prefix of the PDF's file name. |
| Markdown.LineBlock | pdf_to_md.py:108-112 | A kept line becomes a line entry for that same line, and it is a heading exactly when `detect_title` with bounds 4 and 50 accepts it. |
| Markdown.KeptLinesSnoc | pdf_to_md.py:102-105 | One more raw line adds its stripped form to the kept lines when that form is non-empty, and nothing otherwise. |
| Markdown.KeptLinesTrimmed | pdf_to_md.py:103-105 | Every kept line is non-empty and has no white space at either end. |
| Markdown.RenderContent | pdf_to_md.py:78-116 | The nested page and line loops leave in `markdown_content` exactly the texts of the specified entries: the header, then for each page its line entries and its marker. |
| Markdown.RenderStep | pdf_to_md.py:86-116 | One turn of the page loop extends the entries for the first k pages to the entries for the first k + 1 pages. |
| Markdown.BodySnoc | pdf_to_md.py:86-116 | The entries for the pages plus one more page are the entries for the pages followed by that page's lines and its marker. |
| Markdown.PdfToMarkdown | pdf_to_md.py:62-126 | The target is the given output path or the input path with ".md" for its extension. If the PDF does not open, the result is false and nothing is written. Otherwise the rendered Markdown is handed to the write, and the result is whether the write succeeds. |
| Markdown.RenderedStartsWithHeader | pdf_to_md.py:80-83 | The Markdown text starts with `# <stem>\n`. |
| Markdown.BodyHasNoHeader | pdf_to_md.py:86-116 | No entry produced by the page loop is a document header. |
| Markdown.HeaderOnlyFirst | pdf_to_md.py:80-83 | The header is the first entry and no other entry is a header. |
| Markdown.BodyLinesWellFormed | pdf_to_md.py:102-112 | Every line entry produced from stripped, non-empty lines is the entry `detect_title` chooses for its line. |
| Markdown.DocumentLinesWellFormed | pdf_to_md.py:102-112 | Every line entry of a document holds a stripped, non-empty line, and it is a heading exactly when `detect_title` accepts that line, so never both kinds. |
| Markdown.MarksOfBody | pdf_to_md.py:86-116 | The page loop emits one marker per page, numbered upwards from the first page number. |
| Markdown.DocumentMarks | pdf_to_md.py:86-116 | A document of n pages has exactly n markers, and the i-th reads "page i of n", for i = 1..n in order. |
| Markdown.LinesInLineBlocks | pdf_to_md.py:108-112 | The line entries of a page give back that page's kept lines, in order. |
| Markdown.LinesOfBody | pdf_to_md.py:99-112 | The line entries of the page loop are the kept lines of all pages, page after page. |
| Markdown.DocumentLines | pdf_to_md.py:99-112 | Every non-blank line appears stripped, once, in its original order, and nothing else is a line entry. |
| Markdown.ReadFirstPage | pdf_to_md.py:102-116 | Reading the entries back, the first page is its own lines followed by its own marker. |
| Markdown.ReadPagesOfBody | pdf_to_md.py:86-116 | Cutting the page loop's entries after each marker gives, for each page in order, its kept lines and then its marker. |
| Markdown.ReadPagesOfDocument | pdf_to_md.py:78-116 | After the header, reading the document back page by page gives each page's kept lines followed by that page's marker "page i of n". |
| Batch.IsPdfNameIff | pdf_to_md.py:139 | A name passes the filter exactly when it ends with '.' followed by p, d and f, each in either case. |
| Batch.PdfFiles | pdf_to_md.py:139 | The filtered list holds exactly the listed names that pass the filter, and is no longer than the listing. |
| Batch.PdfFilesAppend | pdf_to_md.py:139 | Filtering keeps listing order: the filter of a concatenation is the concatenation of the filters. |
| Paths.SubdirJoin | pdf_to_md.py:133 | Joining a directory and a name without '/' gives a path that starts with the directory and whose base name is the name. |
| Batch.OutputDirDefault | pdf_to_md.py:132-133 | A given output directory is used as it is. Without one, the output directory is named "markdown" and its path starts with the input directory. |
| Batch.JobPlaces | pdf_to_md.py:148-150 | For a relative file name, the call reads a path that starts with the input directory and ends with the file name, and writes a path that starts with the output directory. |
| Batch.JobNames | pdf_to_md.py:148-150 | Each call reads the listed file itself. It writes a file whose name is the PDF's stem plus ".md", which is also the document's heading plus ".md" and the default output name for that file. |
| Batch.Successes | pdf_to_md.py:146-153 | The success count never exceeds the number of conversions. |
| Batch.SuccessesBounds | pdf_to_md.py:146-153 | The count equals the number of conversions exactly when all succeed, and is zero exactly when none does. |
| Batch.SuccessesAppend | pdf_to_md.py:146-153 | Counting over two runs one after the other adds their counts. |
| Batch.SuccessesSnoc | pdf_to_md.py:152-153 | One more conversion adds one to the count exactly when it succeeds. |
| Batch.JobsFor | pdf_to_md.py:147-150 | One call is made per PDF file. |
| Batch.JobsForIndex | pdf_to_md.py:147-150 | The i-th call reads the i-th PDF file of the input directory and writes its ".md" file in the output directory. |
| Batch.ConvertAll | pdf_to_md.py:146-153 | The loop makes exactly the calls `JobsFor` specifies, in listing order, and the returned count is the number of those calls that succeed. |
| Batch.BatchConvert | pdf_to_md.py:129-155 | The output directory is the given one or `<input>/markdown`. With no PDF file, nothing is converted and "none found" is reported. Otherwise every PDF file is converted in order, and the total and the success count are reported. |

## Left out

- Text extraction is not modelled: `fitz.open`, `page.get_text` and the `pymupdf.utils.get_text` fallback (pdf_to_md.py:72, 92-96) are calls into PyMuPDF. `PdfToMarkdown` takes the page texts as a parameter, or `None` when the PDF cannot be opened.
- Markdown.PdfToMarkdown: a page whose text cannot be extracted is not modelled. Only `AttributeError` from `page.get_text()` is caught (pdf_to_md.py:90-96). An error from `pdf_document[page_num]`, any other error from `get_text`, or one from the fallback propagates out of `pdf_to_markdown`. The model takes every page's text as given.
- Batch.BatchConvert: the model cannot abort. Line 152 has no `try`, so an error that escapes `pdf_to_markdown` ends the loop. Later files are not converted and the report at line 155 is not printed. In the model, `convert` always returns and the outcome is always `NoPdfFiles` or `Finished`.
- File writing (pdf_to_md.py:119-126) is I/O. `PdfToMarkdown` returns the string that would be written, and a parameter says whether the write succeeds.
- `create_directory_if_not_exists` (pdf_to_md.py:19-23, 136) is file-system I/O and is not modelled.
- `os.listdir` (pdf_to_md.py:139) is I/O, so the listing is a parameter of `BatchConvert`. What a missing input directory does is not modelled. The source behaves as follows:
  - With an output directory outside the input directory, `listdir` raises.
  - With an output directory that is the input directory itself, `os.makedirs` (pdf_to_md.py:22) creates it, the listing is empty, and "none found" is reported.
  - With an output directory strictly inside it, `os.makedirs` creates the input directory on the way. The listing holds only the first sub-directory on the way, so "none found" is reported unless that name itself ends in `.pdf`. In that case the sub-directory is passed to `pdf_to_markdown`, its open fails, and the report gives 1 file and 0 successes.
  - Without an output directory, the listing holds only `markdown`, and "none found" is reported.
- The `argparse` dispatch in `main` (pdf_to_md.py:158-176) is left out.
- The printed messages (pdf_to_md.py:74, 122, 125, 142, 155) are left out. `BatchConvert` returns the totals its last message prints.
- Batch.ConvertAll: which conversions succeed is an oracle `convert`. It is not derived from `PdfToMarkdown`, whose outcome itself depends on I/O.
- Strings.IsUpper: only ASCII letters count as cased. Python's `str.isupper()` also looks at cased letters outside ASCII.
- Strings.Lower: only ASCII letters are lowered. Python's `str.lower()` also lowers other letters, and for one of them (U+0130) changes the length.
- Paths.SplitExt, Paths.Basename and Paths.PathJoin follow POSIX `os.path` only. Windows paths are not modelled.
- The repository also documents a summarisation service: text extraction with an OCR fallback, chunking, summarising and formatting. None of its code is in `pdf_to_md.py`, so it is not part of this model.
- The comment above the keyword loop (pdf_to_md.py:53) speaks of keywords at the start of a line. The code tests `keyword in text`, anywhere in the line. The model follows the code; `Titles.KeywordAnywhere` states it.
