/** `batch_convert`: converts every PDF file of a directory listing, in
    listing order, and counts the conversions that succeed. */
module Batch {
  import opened Seqs
  import opened Strings
  import opened Paths
  import opened Options
  import Markdown

  /** `f.lower().endswith('.pdf')`. */
  predicate IsPdfName(name: string)
  {
    EndsWith(Lower(name), ".pdf")
  }

  /** The extension test ignores the case of the three letters and nothing else. */
  lemma IsPdfNameIff(name: string)
    ensures IsPdfName(name) <==>
              |name| >= 4 && name[|name| - 4] == '.' && name[|name| - 3] in "pP" &&
              name[|name| - 2] in "dD" && name[|name| - 1] in "fF"
  {
    var low := Lower(name);
    var n := |name|;
    if n >= 4 {
      var tail := low[n - 4..];
      assert tail == [LowerChar(name[n - 4]), LowerChar(name[n - 3]), LowerChar(name[n - 2]), LowerChar(name[n - 1])];
      assert tail == ".pdf" <==>
             tail[0] == '.' && tail[1] == 'p' && tail[2] == 'd' && tail[3] == 'f';
    }
  }

  /** `[f for f in listing if f.lower().endswith('.pdf')]`. */
  function PdfFiles(listing: seq<string>): (r: seq<string>)
    ensures |r| <= |listing|
    ensures forall f :: f in r <==> f in listing && IsPdfName(f)
  {
    if listing == [] then []
    else if IsPdfName(listing[0]) then [listing[0]] + PdfFiles(listing[1..])
    else PdfFiles(listing[1..])
  }

  /** The filter keeps the order of the listing: filtering two listings one
      after the other is filtering their concatenation. */
  lemma {:induction false} PdfFilesAppend(a: seq<string>, b: seq<string>)
    ensures PdfFiles(a + b) == PdfFiles(a) + PdfFiles(b)
  {
    if a == [] {
      AppendEmpty(b);
      AppendEmpty(PdfFiles(b));
    } else {
      AppendTail(a, b);
      PdfFilesAppend(a[1..], b);
      if IsPdfName(a[0]) {
        Assoc([a[0]], PdfFiles(a[1..]), PdfFiles(b));
      }
    }
  }

  /** The directory the Markdown files go to: the one given, or the
      sub-directory "markdown" of the input directory. */
  function OutputDirFor(inputDir: string, outputDir: Option<string>): string
  {
    if outputDir.None? then PathJoin(inputDir, "markdown") else outputDir.value
  }

  /** Without an output directory, the Markdown files go to a directory named
      "markdown" inside the input directory. */
  lemma OutputDirDefault(inputDir: string, outputDir: Option<string>)
    ensures outputDir.Some? ==> OutputDirFor(inputDir, outputDir) == outputDir.value
    ensures outputDir.None? ==>
              Basename(OutputDirFor(inputDir, outputDir)) == "markdown" &&
              StartsWith(OutputDirFor(inputDir, outputDir), inputDir)
  {
    if outputDir.None? {
      SubdirJoin(inputDir, "markdown");
    }
  }

  /** One call `pdf_to_markdown(pdf_path, output_path)` of the batch. */
  datatype Job = Job(pdfPath: string, outputPath: string)

  /** The call made for the listed file `file`. */
  function JobFor(inputDir: string, outDir: string, file: string): Job
  {
    Job(PathJoin(inputDir, file), PathJoin(outDir, SplitExt(file).0 + ".md"))
  }

  /** For a listed file name, the converter reads the file itself, writes a
      file named after it with the extension ".md", and heads the Markdown with
      the same stem as that output file's name. */
  lemma JobNames(inputDir: string, outDir: string, file: string)
    requires '/' !in file
    ensures Basename(JobFor(inputDir, outDir, file).pdfPath) == file
    ensures Basename(JobFor(inputDir, outDir, file).outputPath) ==
            Markdown.StemOf(JobFor(inputDir, outDir, file).pdfPath) + ".md"
    ensures Basename(JobFor(inputDir, outDir, file).outputPath) == MarkdownPathFor(file)
  {
    BasenameOfJoin(inputDir, file);
    MarkdownNameFlat(file);
    BasenameOfJoin(outDir, SplitExt(file).0 + ".md");
  }

  /** Each call reads a file of the input directory and writes one into the
      output directory. */
  lemma JobPlaces(inputDir: string, outDir: string, file: string)
    requires !StartsWith(file, "/")
    ensures StartsWith(JobFor(inputDir, outDir, file).pdfPath, inputDir)
    ensures EndsWith(JobFor(inputDir, outDir, file).pdfPath, file)
    ensures StartsWith(JobFor(inputDir, outDir, file).outputPath, outDir)
  {
    PathJoinParts(inputDir, file);
    MarkdownNameRelative(file);
    PathJoinParts(outDir, SplitExt(file).0 + ".md");
  }

  /** How many of `jobs` succeed when `convert` says which ones do. */
  function Successes(jobs: seq<Job>, convert: Job -> bool): (n: nat)
    ensures n <= |jobs|
  {
    if jobs == [] then 0
    else Successes(jobs[..|jobs| - 1], convert) + (if convert(jobs[|jobs| - 1]) then 1 else 0)
  }

  /** All jobs succeed exactly when the count reaches the number of jobs, and
      none does exactly when it stays at zero. */
  lemma {:induction false} SuccessesBounds(jobs: seq<Job>, convert: Job -> bool)
    ensures Successes(jobs, convert) == |jobs| <==> forall i :: 0 <= i < |jobs| ==> convert(jobs[i])
    ensures Successes(jobs, convert) == 0 <==> forall i :: 0 <= i < |jobs| ==> !convert(jobs[i])
  {
    if jobs != [] {
      var init := jobs[..|jobs| - 1];
      SuccessesBounds(init, convert);
      assert forall i :: 0 <= i < |init| ==> init[i] == jobs[i];
    }
  }

  /** The count over two batches run one after the other is the sum of their counts. */
  lemma {:induction false} SuccessesAppend(a: seq<Job>, b: seq<Job>, convert: Job -> bool)
    ensures Successes(a + b, convert) == Successes(a, convert) + Successes(b, convert)
  {
    if b == [] {
      AppendEmpty(a);
    } else {
      var init := b[..|b| - 1];
      AppendInit(a, b);
      SuccessesAppend(a, init, convert);
    }
  }

  /** What `batch_convert` reports. */
  datatype Outcome =
    | NoPdfFiles
    | Finished(total: nat, succeeded: nat)

  /** `batch_convert(input_dir, output_dir)` on a directory whose listing is
      `listing`; `convert` says which calls of `pdf_to_markdown` succeed.
      Returns the calls made, in order, and the outcome reported. */
  method BatchConvert(inputDir: string, outputDir: Option<string>, listing: seq<string>,
                      convert: Job -> bool)
    returns (jobs: seq<Job>, outcome: Outcome)
    ensures var files := PdfFiles(listing);
            |jobs| == |files| &&
            forall i :: 0 <= i < |files| ==>
              jobs[i] == JobFor(inputDir, OutputDirFor(inputDir, outputDir), files[i])
    ensures PdfFiles(listing) == [] <==> outcome == NoPdfFiles
    ensures outcome.Finished? ==>
              outcome.total == |PdfFiles(listing)| && outcome.succeeded == Successes(jobs, convert)
  {
    var outDir := OutputDirFor(inputDir, outputDir);
    var pdfFiles := PdfFiles(listing);
    if pdfFiles == [] {
      return [], NoPdfFiles;
    }
    var successCount;
    jobs, successCount := ConvertAll(inputDir, outDir, pdfFiles, convert);
    JobsForIndex(inputDir, outDir, pdfFiles);
    outcome := Finished(|pdfFiles|, successCount);
  }

  /** The calls made for `files`, in order. */
  function JobsFor(inputDir: string, outDir: string, files: seq<string>): (r: seq<Job>)
    ensures |r| == |files|
  {
    Map(file => JobFor(inputDir, outDir, file), files)
  }

  /** The i-th call is the one for the i-th file. */
  lemma JobsForIndex(inputDir: string, outDir: string, files: seq<string>)
    ensures forall i :: 0 <= i < |files| ==>
              JobsFor(inputDir, outDir, files)[i] == JobFor(inputDir, outDir, files[i])
  {
    MapIndex(file => JobFor(inputDir, outDir, file), files);
  }

  lemma JobsForSnoc(inputDir: string, outDir: string, files: seq<string>, file: string)
    ensures JobsFor(inputDir, outDir, files + [file]) ==
            JobsFor(inputDir, outDir, files) + [JobFor(inputDir, outDir, file)]
  {
    MapSnoc(f => JobFor(inputDir, outDir, f), files, file);
  }

  /** The loop of `batch_convert`: one call per PDF file, in order, counting
      the calls that succeed. */
  method ConvertAll(inputDir: string, outDir: string, pdfFiles: seq<string>, convert: Job -> bool)
    returns (jobs: seq<Job>, successCount: nat)
    ensures jobs == JobsFor(inputDir, outDir, pdfFiles)
    ensures successCount == Successes(jobs, convert)
  {
    jobs := [];
    successCount := 0;
    for i := 0 to |pdfFiles|
      invariant jobs == JobsFor(inputDir, outDir, pdfFiles[..i])
      invariant successCount == Successes(jobs, convert)
    {
      var job := JobFor(inputDir, outDir, pdfFiles[i]);
      SuccessesSnoc(jobs, job, convert);
      Snoc(pdfFiles, i);
      JobsForSnoc(inputDir, outDir, pdfFiles[..i], pdfFiles[i]);
      jobs := jobs + [job];
      if convert(job) {
        successCount := successCount + 1;
      }
    }
    TakeAll(pdfFiles);
  }

  lemma SuccessesSnoc(jobs: seq<Job>, job: Job, convert: Job -> bool)
    ensures Successes(jobs + [job], convert) == Successes(jobs, convert) + (if convert(job) then 1 else 0)
  {
    SnocInit(jobs, job);
  }
}
