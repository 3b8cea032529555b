/** `pdf_to_markdown`: renders the text of each page of a PDF as Markdown,
    one entry of `markdown_content` per heading, line and page marker. */
module Markdown {
  import opened Strings
  import opened Paths
  import opened Options
  import opened Seqs
  import Titles

  /** What each entry of `markdown_content` stands for. */
  datatype Block =
    | Header(stem: string)
    | Title(line: string)
    | Para(line: string)
    | PageMark(page: nat, total: nat)

  predicate IsLine(b: Block)
  {
    b.Title? || b.Para?
  }

  /** The text of an entry, as the converter formats it. */
  function Text(b: Block): (r: string)
    ensures r != [] && r[|r| - 1] == '\n'
  {
    match b
    case Header(stem) => "# " + stem + "\n"
    case Title(line) => "\n## " + line + "\n"
    case Para(line) => line + "\n"
    case PageMark(page, total) =>
      "\n---\n\n*第 " + Decimal(page) + " 页，共 " + Decimal(total) + " 页*\n\n"
  }

  function Texts(bs: seq<Block>): (r: seq<string>)
    ensures |r| == |bs|
  {
    seq(|bs|, i requires 0 <= i < |bs| => Text(bs[i]))
  }

  /** `''.join(parts)`. */
  function Concat(parts: seq<string>): (r: string)
    ensures r == [] <==> forall i :: 0 <= i < |parts| ==> parts[i] == []
  {
    if parts == [] then "" else parts[0] + Concat(parts[1..])
  }

  /** The stripped, non-blank pieces of `raw`, in order. */
  function KeptLines(raw: seq<string>): (r: seq<string>)
    ensures |r| <= |raw|
  {
    if raw == [] then []
    else if Strip(raw[0]) == [] then KeptLines(raw[1..])
    else [Strip(raw[0])] + KeptLines(raw[1..])
  }

  /** The lines a page contributes: its text split at '\n', each piece
      stripped, blank pieces dropped. */
  function PageLines(text: string): (r: seq<string>)
    ensures forall i :: 0 <= i < |r| ==> r[i] != [] && Trimmed(r[i])
  {
    KeptLinesTrimmed(Split(text, '\n'));
    KeptLines(Split(text, '\n'))
  }

  /** A heading entry for a line `detect_title` accepts with its default
      bounds, a plain entry otherwise. */
  function LineBlock(line: string): (b: Block)
    ensures IsLine(b) && b.line == line
    ensures b.Title? <==> Titles.DetectTitle(line, Titles.DefaultMinLength, Titles.DefaultMaxLength)
  {
    if Titles.DetectTitle(line, Titles.DefaultMinLength, Titles.DefaultMaxLength)
    then Title(line) else Para(line)
  }

  function LineBlocks(lines: seq<string>): (r: seq<Block>)
    ensures |r| == |lines|
  {
    seq(|lines|, i requires 0 <= i < |lines| => LineBlock(lines[i]))
  }

  /** The kept lines of each page. */
  function PagesLines(pages: seq<string>): (r: seq<seq<string>>)
    ensures |r| == |pages|
  {
    seq(|pages|, i requires 0 <= i < |pages| => PageLines(pages[i]))
  }

  /** One page: its lines, then its marker. */
  function PageBlocks(lines: seq<string>, page: nat, total: nat): seq<Block>
  {
    LineBlocks(lines) + [PageMark(page, total)]
  }

  /** Pages given by their kept lines, the first of them numbered `first`. */
  function Body(pageLines: seq<seq<string>>, first: nat, total: nat): seq<Block>
  {
    if pageLines == [] then []
    else PageBlocks(pageLines[0], first, total) + Body(pageLines[1..], first + 1, total)
  }

  /** The entries of the Markdown for a document named `stem` whose pages
      have the texts `pages`. */
  function Document(stem: string, pages: seq<string>): seq<Block>
  {
    [Header(stem)] + Body(PagesLines(pages), 1, |pages|)
  }

  /** The Markdown text written to the output file. */
  function Rendered(stem: string, pages: seq<string>): string
  {
    Concat(Texts(Document(stem, pages)))
  }

  /** The file name without its extension, which heads the document. */
  function StemOf(pdfPath: string): (r: string)
    ensures '/' !in r && StartsWith(Basename(pdfPath), r)
  {
    FlatRoot(Basename(pdfPath));
    SplitExt(Basename(pdfPath)).0
  }

  // ---------------------------------------------------------------------
  // The converter

  /** The loops of `pdf_to_markdown` that fill `markdown_content`. */
  method RenderContent(stem: string, pages: seq<string>) returns (content: seq<string>)
    ensures content == Texts(Document(stem, pages))
  {
    var total := |pages|;
    ghost var pageLines := PagesLines(pages);
    ghost var blocks := [Header(stem)];
    content := ["# " + stem + "\n"];
    AppendEmpty(blocks);
    TextsOne(Header(stem));
    for pageNum := 0 to total
      invariant blocks == [Header(stem)] + Body(pageLines[..pageNum], 1, total)
      invariant content == Texts(blocks)
    {
      var lines := Split(pages[pageNum], '\n');
      ghost var lineBlocks: seq<Block> := [];
      AppendEmpty(blocks);
      for k := 0 to |lines|
        invariant lineBlocks == LineBlocks(KeptLines(lines[..k]))
        invariant content == Texts(blocks + lineBlocks)
      {
        Snoc(lines, k);
        KeptLinesSnoc(lines[..k], lines[k]);
        var line := Strip(lines[k]);
        if line == [] {
          continue;
        }
        if Titles.DetectTitle(line, Titles.DefaultMinLength, Titles.DefaultMaxLength) {
          content := content + ["\n## " + line + "\n"];
        } else {
          content := content + [line + "\n"];
        }
        TextsSnoc(blocks + lineBlocks, LineBlock(line));
        LineBlocksSnoc(KeptLines(lines[..k]), line);
        Assoc(blocks, lineBlocks, [LineBlock(line)]);
        lineBlocks := lineBlocks + [LineBlock(line)];
      }
      var pageMark := "\n---\n\n*第 " + Decimal(pageNum + 1) + " 页，共 " + Decimal(total) + " 页*\n\n";
      content := content + [pageMark];
      TextsSnoc(blocks + lineBlocks, PageMark(pageNum + 1, total));
      TakeAll(lines);
      RenderStep(stem, pageLines, pageNum);
      blocks := blocks + lineBlocks + [PageMark(pageNum + 1, total)];
    }
    TakeAll(pageLines);
  }

  /** One turn of the outer loop appends one page to the entries. */
  lemma RenderStep(stem: string, pageLines: seq<seq<string>>, pageNum: nat)
    requires pageNum < |pageLines|
    ensures [Header(stem)] + Body(pageLines[..pageNum], 1, |pageLines|) +
            LineBlocks(pageLines[pageNum]) + [PageMark(pageNum + 1, |pageLines|)] ==
            [Header(stem)] + Body(pageLines[..pageNum + 1], 1, |pageLines|)
  {
    var n := |pageLines|;
    Snoc(pageLines, pageNum);
    BodyStep(pageLines[..pageNum], pageLines[pageNum], pageNum, n);
    PrependAssoc(Header(stem), Body(pageLines[..pageNum], 1, n),
                 LineBlocks(pageLines[pageNum]), [PageMark(pageNum + 1, n)],
                 Body(pageLines[..pageNum + 1], 1, n));
  }

  /** `BodySnoc` for page numbers counted from 1. It is kept apart so that
      the verification of `RenderStep` stays within its resource limit. */
  lemma BodyStep(pageLines: seq<seq<string>>, lines: seq<string>, pageNum: nat, total: nat)
    requires |pageLines| == pageNum
    ensures Body(pageLines, 1, total) + (LineBlocks(lines) + [PageMark(pageNum + 1, total)]) ==
            Body(pageLines + [lines], 1, total)
  {
    BodySnoc(pageLines, lines, 1, total);
  }

  /** `pdf_to_markdown(pdf_path, output_path)`: `document` is the list of
      page texts, or `None` when the PDF cannot be opened; `writeSucceeds`
      says whether writing the output file works. Returns the result, the
      path written to and the text handed to the write. */
  method PdfToMarkdown(pdfPath: string, outputPath: Option<string>,
                       document: Option<seq<string>>, writeSucceeds: bool)
    returns (ok: bool, target: string, written: Option<string>)
    ensures target == if outputPath.Some? then outputPath.value else MarkdownPathFor(pdfPath)
    ensures document.None? ==> !ok && written == None
    ensures document.Some? ==>
              ok == writeSucceeds && written == Some(Rendered(StemOf(pdfPath), document.value))
  {
    target := if outputPath.None? then MarkdownPathFor(pdfPath) else outputPath.value;
    if document.None? {
      return false, target, None;
    }
    var fileName := Basename(pdfPath);
    var stem := SplitExt(fileName).0;
    var content := RenderContent(stem, document.value);
    written := Some(Concat(content));
    ok := writeSucceeds;
  }

  // ---------------------------------------------------------------------
  // Lemmas the loops rely on

  lemma {:induction false} KeptLinesSnoc(raw: seq<string>, x: string)
    ensures Strip(x) == [] ==> KeptLines(raw + [x]) == KeptLines(raw)
    ensures Strip(x) != [] ==> KeptLines(raw + [x]) == KeptLines(raw) + [Strip(x)]
  {
    if raw == [] {
      AppendEmpty([x]);
      ConsTail(x, []);
    } else {
      AppendTail(raw, [x]);
      KeptLinesSnoc(raw[1..], x);
      if Strip(raw[0]) != [] && Strip(x) != [] {
        Assoc([Strip(raw[0])], KeptLines(raw[1..]), [Strip(x)]);
      }
    }
  }

  /** Every kept line is stripped and not empty. */
  lemma {:induction false} KeptLinesTrimmed(raw: seq<string>)
    ensures forall i :: 0 <= i < |KeptLines(raw)| ==>
              KeptLines(raw)[i] != [] && Trimmed(KeptLines(raw)[i])
  {
    if raw != [] {
      KeptLinesTrimmed(raw[1..]);
      var rest := KeptLines(raw[1..]);
      var line := Strip(raw[0]);
      if line != [] {
        forall i | 0 < i < |[line] + rest|
          ensures ([line] + rest)[i] != [] && Trimmed(([line] + rest)[i])
        {
          assert ([line] + rest)[i] == rest[i - 1];
        }
      }
    }
  }

  lemma LineBlocksSnoc(lines: seq<string>, line: string)
    ensures LineBlocks(lines + [line]) == LineBlocks(lines) + [LineBlock(line)]
  {
  }

  lemma TextsSnoc(bs: seq<Block>, b: Block)
    ensures Texts(bs + [b]) == Texts(bs) + [Text(b)]
  {
  }

  lemma TextsOne(b: Block)
    ensures Texts([b]) == [Text(b)]
  {
  }

  lemma TextsAppend(a: seq<Block>, b: seq<Block>)
    ensures Texts(a + b) == Texts(a) + Texts(b)
  {
  }

  lemma {:induction false} BodySnoc(pageLines: seq<seq<string>>, lines: seq<string>, first: nat, total: nat)
    ensures Body(pageLines + [lines], first, total) ==
            Body(pageLines, first, total) + PageBlocks(lines, first + |pageLines|, total)
  {
    if pageLines == [] {
      AppendEmpty([lines]);
      ConsTail(lines, []);
      AppendEmpty(PageBlocks(lines, first, total));
    } else {
      AppendTail(pageLines, [lines]);
      BodySnoc(pageLines[1..], lines, first + 1, total);
      Assoc(PageBlocks(pageLines[0], first, total), Body(pageLines[1..], first + 1, total),
            PageBlocks(lines, first + |pageLines|, total));
    }
  }

  // ---------------------------------------------------------------------
  // What the rendered Markdown is

  lemma ConcatCons(h: string, rest: seq<string>)
    ensures Concat([h] + rest) == h + Concat(rest)
  {
    ConsTail(h, rest);
  }

  /** `''.join` of two lists one after the other is the join of their concatenation. */
  lemma {:induction false} ConcatAppend(a: seq<string>, b: seq<string>)
    ensures Concat(a + b) == Concat(a) + Concat(b)
  {
    if a == [] {
      AppendEmpty(b);
      AppendEmpty(Concat(b));
    } else {
      AppendTail(a, b);
      ConcatAppend(a[1..], b);
      Assoc(a[0], Concat(a[1..]), Concat(b));
    }
  }

  /** Two line entries of stripped, non-empty lines have the same text only
      when they are the same entry: a heading's text starts with '\n', which
      a stripped line never does, and each text gives its line back. */
  lemma TextLinesDistinct(a: Block, b: Block)
    requires IsLine(a) && a.line != [] && Trimmed(a.line)
    requires IsLine(b) && b.line != [] && Trimmed(b.line)
    ensures Text(a) == Text(b) ==> a == b
  {
    if Text(a) == Text(b) {
      if a.Title? && b.Title? {
        assert a.line == Text(a)[4..|Text(a)| - 1];
        assert b.line == Text(b)[4..|Text(b)| - 1];
      } else if a.Para? && b.Para? {
        assert a.line == Text(a)[..|Text(a)| - 1];
        assert b.line == Text(b)[..|Text(b)| - 1];
      } else if a.Title? {
        ParaTextStart(b);
      } else {
        ParaTextStart(a);
      }
    }
  }

  lemma ParaTextStart(p: Block)
    requires p.Para? && p.line != [] && Trimmed(p.line)
    ensures Text(p)[0] != '\n'
  {
    assert Text(p)[0] == p.line[0];
  }

  /** The output starts with the heading `# stem`. */
  lemma RenderedStartsWithHeader(stem: string, pages: seq<string>)
    ensures StartsWith(Rendered(stem, pages), "# " + stem + "\n")
  {
    var body := Body(PagesLines(pages), 1, |pages|);
    TextsAppend([Header(stem)], body);
    TextsOne(Header(stem));
    ConcatCons(Text(Header(stem)), Texts(body));
  }

  lemma {:induction false} BodyHasNoHeader(pageLines: seq<seq<string>>, first: nat, total: nat)
    ensures forall i :: 0 <= i < |Body(pageLines, first, total)| ==>
              !Body(pageLines, first, total)[i].Header?
  {
    if pageLines != [] {
      var lb := LineBlocks(pageLines[0]);
      var page: seq<Block> := lb + [PageMark(first, total)];
      var rest := Body(pageLines[1..], first + 1, total);
      BodyHasNoHeader(pageLines[1..], first + 1, total);
      forall i | 0 <= i < |page + rest|
        ensures !(page + rest)[i].Header?
      {
        if i < |lb| {
          assert (page + rest)[i] == LineBlock(pageLines[0][i]);
        } else if i == |lb| {
          assert (page + rest)[i] == PageMark(first, total);
        } else {
          assert (page + rest)[i] == rest[i - |page|];
        }
      }
    }
  }

  /** The heading is the first entry and no other entry is a heading. */
  lemma HeaderOnlyFirst(stem: string, pages: seq<string>)
    ensures var doc := Document(stem, pages);
            doc[0] == Header(stem) && forall i :: 0 < i < |doc| ==> !doc[i].Header?
  {
    var body := Body(PagesLines(pages), 1, |pages|);
    BodyHasNoHeader(PagesLines(pages), 1, |pages|);
    forall i | 0 < i < |[Header(stem)] + body|
      ensures !([Header(stem)] + body)[i].Header?
    {
      assert ([Header(stem)] + body)[i] == body[i - 1];
    }
  }

  predicate AllTrimmedLines(pageLines: seq<seq<string>>)
  {
    forall i, j :: 0 <= i < |pageLines| && 0 <= j < |pageLines[i]| ==>
      pageLines[i][j] != [] && Trimmed(pageLines[i][j])
  }

  lemma {:induction false} BodyLinesWellFormed(pageLines: seq<seq<string>>, first: nat, total: nat)
    requires AllTrimmedLines(pageLines)
    ensures forall b :: b in Body(pageLines, first, total) && IsLine(b) ==>
              b == LineBlock(b.line) && b.line != [] && Trimmed(b.line)
  {
    if pageLines != [] {
      assert AllTrimmedLines(pageLines[1..]) by {
        forall i, j | 0 <= i < |pageLines[1..]| && 0 <= j < |pageLines[1..][i]|
          ensures pageLines[1..][i][j] != [] && Trimmed(pageLines[1..][i][j])
        {
          assert pageLines[1..][i] == pageLines[i + 1];
        }
      }
      BodyLinesWellFormed(pageLines[1..], first + 1, total);
      var lines := pageLines[0];
      forall b | b in LineBlocks(lines)
        ensures b == LineBlock(b.line) && b.line != [] && Trimmed(b.line)
      {
        var j :| 0 <= j < |lines| && b == LineBlocks(lines)[j];
      }
    }
  }

  /** Every line entry of a document holds a stripped, non-blank line, and it
      is a heading exactly when `detect_title` accepts that line. */
  lemma DocumentLinesWellFormed(stem: string, pages: seq<string>)
    ensures forall b :: b in Document(stem, pages) && IsLine(b) ==>
              b.line != [] && Trimmed(b.line) &&
              (b.Title? <==> Titles.DetectTitle(b.line, Titles.DefaultMinLength, Titles.DefaultMaxLength))
  {
    var pl := PagesLines(pages);
    assert AllTrimmedLines(pl) by {
      forall i, j | 0 <= i < |pl| && 0 <= j < |pl[i]|
        ensures pl[i][j] != [] && Trimmed(pl[i][j])
      {
        assert pl[i] == KeptLines(Split(pages[i], '\n'));
        KeptLinesTrimmed(Split(pages[i], '\n'));
      }
    }
    BodyLinesWellFormed(pl, 1, |pages|);
  }

  /** The page markers among `bs`, in order. */
  function Marks(bs: seq<Block>): seq<Block>
  {
    if bs == [] then [] else (if bs[0].PageMark? then [bs[0]] else []) + Marks(bs[1..])
  }

  lemma {:induction false} MarksAppend(a: seq<Block>, b: seq<Block>)
    ensures Marks(a + b) == Marks(a) + Marks(b)
  {
    if a == [] {
      AppendEmpty(b);
    } else {
      AppendTail(a, b);
      MarksAppend(a[1..], b);
      Assoc(if a[0].PageMark? then [a[0]] else [], Marks(a[1..]), Marks(b));
    }
  }

  lemma {:induction false} MarksOfLines(lines: seq<string>)
    ensures Marks(LineBlocks(lines)) == []
  {
    if lines != [] {
      assert LineBlocks(lines)[1..] == LineBlocks(lines[1..]);
      MarksOfLines(lines[1..]);
    }
  }

  /** A body of n pages holds exactly n markers, numbered from `first`
      upwards, each out of `total`. */
  lemma {:induction false} MarksOfBody(pageLines: seq<seq<string>>, first: nat, total: nat)
    ensures var ms := Marks(Body(pageLines, first, total));
            |ms| == |pageLines| &&
            forall i :: 0 <= i < |pageLines| ==> ms[i] == PageMark(first + i, total)
  {
    if pageLines != [] {
      var lb := LineBlocks(pageLines[0]);
      MarksAppend(lb + [PageMark(first, total)], Body(pageLines[1..], first + 1, total));
      MarksAppend(lb, [PageMark(first, total)]);
      MarksOfLines(pageLines[0]);
      MarksOfBody(pageLines[1..], first + 1, total);
    }
  }

  /** A document of n pages carries the markers "page i of n" for i = 1..n, in order. */
  lemma DocumentMarks(stem: string, pages: seq<string>)
    ensures var ms := Marks(Document(stem, pages));
            |ms| == |pages| && forall i :: 0 <= i < |pages| ==> ms[i] == PageMark(i + 1, |pages|)
  {
    MarksAppend([Header(stem)], Body(PagesLines(pages), 1, |pages|));
    MarksOfBody(PagesLines(pages), 1, |pages|);
  }

  /** The lines held by the line entries among `bs`, in order. */
  function LinesIn(bs: seq<Block>): seq<string>
  {
    if bs == [] then [] else (if IsLine(bs[0]) then [bs[0].line] else []) + LinesIn(bs[1..])
  }

  lemma {:induction false} LinesInAppend(a: seq<Block>, b: seq<Block>)
    ensures LinesIn(a + b) == LinesIn(a) + LinesIn(b)
  {
    if a == [] {
      AppendEmpty(b);
    } else {
      AppendTail(a, b);
      LinesInAppend(a[1..], b);
      Assoc(if IsLine(a[0]) then [a[0].line] else [], LinesIn(a[1..]), LinesIn(b));
    }
  }

  lemma {:induction false} LinesInLineBlocks(lines: seq<string>)
    ensures LinesIn(LineBlocks(lines)) == lines
  {
    if lines != [] {
      assert LineBlocks(lines)[1..] == LineBlocks(lines[1..]);
      LinesInLineBlocks(lines[1..]);
    }
  }

  /** The lines of every page, page after page. */
  function Flatten(pageLines: seq<seq<string>>): seq<string>
  {
    if pageLines == [] then [] else pageLines[0] + Flatten(pageLines[1..])
  }

  lemma {:induction false} LinesOfBody(pageLines: seq<seq<string>>, first: nat, total: nat)
    ensures LinesIn(Body(pageLines, first, total)) == Flatten(pageLines)
  {
    if pageLines != [] {
      var lb := LineBlocks(pageLines[0]);
      LinesInAppend(lb + [PageMark(first, total)], Body(pageLines[1..], first + 1, total));
      LinesInAppend(lb, [PageMark(first, total)]);
      LinesInLineBlocks(pageLines[0]);
      LinesOfBody(pageLines[1..], first + 1, total);
    }
  }

  /** Every kept line appears once, in document order, and nothing else is a
      line entry. */
  lemma DocumentLines(stem: string, pages: seq<string>)
    ensures LinesIn(Document(stem, pages)) == Flatten(PagesLines(pages))
  {
    LinesInAppend([Header(stem)], Body(PagesLines(pages), 1, |pages|));
    LinesOfBody(PagesLines(pages), 1, |pages|);
  }

  // ---------------------------------------------------------------------
  // Reading the pages back

  /** The number of line entries at the front of `bs`. */
  function LeadingLines(bs: seq<Block>): (k: nat)
    ensures k <= |bs|
    ensures forall i :: 0 <= i < k ==> IsLine(bs[i])
    ensures k < |bs| ==> !IsLine(bs[k])
  {
    if bs == [] || !IsLine(bs[0]) then 0 else 1 + LeadingLines(bs[1..])
  }

  /** One page as read back from the entries: its lines and the marker after them. */
  datatype PageView = PageView(lines: seq<string>, mark: Block)

  /** Cuts a rendered body after each page marker. */
  function ReadPages(bs: seq<Block>): seq<PageView>
    decreases |bs|
  {
    var k := LeadingLines(bs);
    if k == |bs| then [] else [PageView(LinesIn(bs[..k]), bs[k])] + ReadPages(bs[k + 1..])
  }

  /** The pages `pageLines`, numbered from `first`, as they should read back. */
  function Views(pageLines: seq<seq<string>>, first: nat, total: nat): (r: seq<PageView>)
    ensures |r| == |pageLines|
  {
    seq(|pageLines|, i requires 0 <= i < |pageLines| => PageView(pageLines[i], PageMark(first + i, total)))
  }

  lemma ViewsCons(pageLines: seq<seq<string>>, first: nat, total: nat)
    requires pageLines != []
    ensures Views(pageLines, first, total) ==
            [PageView(pageLines[0], PageMark(first, total))] + Views(pageLines[1..], first + 1, total)
  {
  }

  lemma {:induction false} ReadPagesOfBody(pageLines: seq<seq<string>>, first: nat, total: nat)
    ensures ReadPages(Body(pageLines, first, total)) == Views(pageLines, first, total)
  {
    if pageLines != [] {
      ReadFirstPage(pageLines, first, total);
      ReadPagesOfBody(pageLines[1..], first + 1, total);
      ViewsCons(pageLines, first, total);
    }
  }

  /** The first page read back from a body is that body's first page. */
  lemma ReadFirstPage(pageLines: seq<seq<string>>, first: nat, total: nat)
    requires pageLines != []
    ensures ReadPages(Body(pageLines, first, total)) ==
            [PageView(pageLines[0], PageMark(first, total))] +
            ReadPages(Body(pageLines[1..], first + 1, total))
  {
    var lb := LineBlocks(pageLines[0]);
    SplitAround(lb, PageMark(first, total), Body(pageLines[1..], first + 1, total));
    LeadingLinesBefore(lb, PageMark(first, total), Body(pageLines[1..], first + 1, total));
    LinesInLineBlocks(pageLines[0]);
  }

  lemma LeadingLinesBefore(lb: seq<Block>, mark: Block, rest: seq<Block>)
    requires forall i :: 0 <= i < |lb| ==> IsLine(lb[i])
    requires !IsLine(mark)
    ensures LeadingLines(lb + [mark] + rest) == |lb|
  {
    var bs := lb + [mark] + rest;
    assert bs[|lb|] == mark;
    assert forall i :: 0 <= i < |lb| ==> bs[i] == lb[i];
  }

  /** Reading a rendered document back, after its heading, gives for each
      page in order exactly the lines kept from that page followed by that
      page's own marker "page i of n". */
  lemma ReadPagesOfDocument(stem: string, pages: seq<string>)
    ensures ReadPages(Document(stem, pages)[1..]) == Views(PagesLines(pages), 1, |pages|)
  {
    ConsTail(Header(stem), Body(PagesLines(pages), 1, |pages|));
    ReadPagesOfBody(PagesLines(pages), 1, |pages|);
  }
}
