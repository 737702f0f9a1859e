/** Text extraction and chunking (backend/utils/document_processor.py).
    PyPDF is not part of this model: what it reads from a file is an input. */
module DocumentProcessor {
  import opened Wrappers
  import opened PyText
  import opened Errors

  /** `self.supported_extensions`. */
  const SupportedExtensions: set<string> := {".pdf"}

  /** The dict `_process_pdf` returns. */
  datatype ProcessedPdf = ProcessedPdf(kind: string, numPages: int, pages: seq<string>, totalText: string)

  /** What PdfReader yields for a file: the extracted text of each page in page
      order, or the message of the exception it raised. */
  type PdfReading = Result<seq<string>, string>

  // ---------------------------------------------------------------- extraction

  /** The pages `_process_pdf` keeps: those whose text is not blank. */
  function KeptPages(raw: seq<string>): (kept: seq<string>)
    ensures |kept| <= |raw|
    ensures forall i :: 0 <= i < |kept| ==> !IsBlank(kept[i])
    decreases |raw|
  {
    if raw == [] then []
    else
      var last := raw[|raw| - 1];
      KeptPages(raw[..|raw| - 1]) + (if IsBlank(last) then [] else [last])
  }

  /** Filtering commutes with concatenation, so the kept pages stay in page order. */
  lemma {:induction false} KeptPagesAppend(a: seq<string>, b: seq<string>)
    ensures KeptPages(a + b) == KeptPages(a) + KeptPages(b)
    decreases |b|
  {
    if b == [] {
      assert a + b == a;
    } else {
      var init := b[..|b| - 1];
      assert (a + b)[..|a + b| - 1] == a + init;
      assert (a + b)[|a + b| - 1] == b[|b| - 1];
      KeptPagesAppend(a, init);
    }
  }

  /** A page text is kept exactly when some page has it and it is not blank. */
  lemma {:induction false} KeptPagesMembers(raw: seq<string>, p: string)
    ensures p in KeptPages(raw) <==> p in raw && !IsBlank(p)
    decreases |raw|
  {
    if raw != [] {
      var init := raw[..|raw| - 1];
      var last := raw[|raw| - 1];
      KeptPagesMembers(init, p);
      assert raw == init + [last];
      assert p in raw <==> p in init || p == last;
      var tail := if IsBlank(last) then [] else [last];
      assert KeptPages(raw) == KeptPages(init) + tail;
      assert p in KeptPages(raw) <==> p in KeptPages(init) || p in tail;
    }
  }

  /** The outcome `_process_pdf` specifies for a reading. */
  function PdfOutcome(reading: PdfReading): (r: Result<ProcessedPdf, Error>)
    ensures r.Success? <==> reading.Success?
    ensures r.Failure? ==> r.error.Other?
    ensures r.Success? ==>
      && r.value.numPages == |r.value.pages| <= |reading.value|
      && forall i :: 0 <= i < |r.value.pages| ==> !IsBlank(r.value.pages[i])
  {
    match reading
    case Failure(message) => Failure(Other("Error processing PDF: " + message))
    case Success(raw) =>
      var pages := KeptPages(raw);
      Success(ProcessedPdf("pdf", |pages|, pages, Join("\n", pages)))
  }

  /** `_process_pdf`: drop blank pages, count and join the rest; any failure of
      the reader is wrapped in a plain Exception. */
  method ProcessPdf(reading: PdfReading) returns (r: Result<ProcessedPdf, Error>)
    ensures r == PdfOutcome(reading)
    ensures reading.Failure? ==> r == Failure(Other("Error processing PDF: " + reading.error))
    ensures reading.Success? ==>
      && r.Success?
      && r.value.kind == "pdf"
      && r.value.pages == KeptPages(reading.value)
      && r.value.numPages == |r.value.pages|
      && r.value.totalText == Join("\n", r.value.pages)
      && (r.value.pages == [] ==> r.value.totalText == "")
  {
    if reading.Failure? {
      return Failure(Other("Error processing PDF: " + reading.error));
    }
    var raw := reading.value;
    var pages: seq<string> := [];
    for i := 0 to |raw|
      invariant pages == KeptPages(raw[..i])
    {
      var text := raw[i];
      assert raw[..i + 1][..i] == raw[..i];
      if !IsBlank(text) {
        pages := pages + [text];
      }
    }
    assert raw[..|raw|] == raw;
    r := Success(ProcessedPdf("pdf", |pages|, pages, Join("\n", pages)));
  }

  /** The lower-cased extension `process_document` dispatches on. */
  function Extension(filePath: string): (ext: string)
    ensures |ext| == |SplitExt(filePath).1|
    ensures ext == [] || ext[0] == '.'
  {
    Lower(SplitExt(filePath).1)
  }

  /** The outcome `process_document` specifies. */
  function Processed(filePath: string, reading: PdfReading): (r: Result<ProcessedPdf, Error>)
    ensures (r.Failure? && r.error.ValueError?) <==> Extension(filePath) != ".pdf"
    ensures Extension(filePath) == ".pdf" ==> r == PdfOutcome(reading)
  {
    var extension := Extension(filePath);
    if extension !in SupportedExtensions then Failure(ValueError("Unsupported file type: " + extension))
    else PdfOutcome(reading)
  }

  /** `process_document`: reject an unsupported extension, otherwise hand the
      file to the PDF reader. (The source's fall-through for a supported
      extension other than ".pdf" cannot happen: ".pdf" is the only one.) */
  method ProcessDocument(filePath: string, reading: PdfReading) returns (r: Result<ProcessedPdf, Error>)
    ensures r == Processed(filePath, reading)
    ensures (r.Failure? && r.error.ValueError?) <==> Extension(filePath) != ".pdf"
  {
    var extension := Lower(SplitExt(filePath).1);
    if extension !in SupportedExtensions {
      return Failure(ValueError("Unsupported file type: " + extension));
    }
    r := ProcessPdf(reading);
  }

  /** A path `dir/stem.ext` whose stem is a plain name: the extension
      process_document tests is the lower-cased `ext`. */
  lemma PathExtension(path: string, dir: string, stem: string, e: string)
    requires path == dir + (stem + e)
    requires DirPrefix(dir) && PlainStem(stem) && ExtShaped(e)
    ensures Extension(path) == Lower(e)
  {
    SplitExtOfName(dir, stem, e);
  }

  /** The upper-case extension ".PDF" is lower-cased to ".pdf". */
  lemma LowerPdf()
    ensures Lower(".PDF") == ".pdf"
  {
    var e := Lower(".PDF");
    assert e[0] == '.' && e[1] == 'p' && e[2] == 'd' && e[3] == 'f';
  }

  /** The extension test ignores case: a file named `stem.PDF` in any
      directory is read as a PDF. */
  lemma UpperCasePdfAccepted(dir: string, stem: string, raw: seq<string>)
    requires DirPrefix(dir) && PlainStem(stem)
    ensures Processed(dir + (stem + ".PDF"), Success(raw)) == PdfOutcome(Success(raw))
  {
    PathExtension(dir + (stem + ".PDF"), dir, stem, ".PDF");
    LowerPdf();
  }

  /** ".txt" is already lower-case and is not a supported extension. */
  lemma TxtUnsupported()
    ensures Lower(".txt") == ".txt" && ".txt" !in SupportedExtensions
    ensures "Unsupported file type: " + ".txt" == "Unsupported file type: .txt"
  {
    LowerIdentity(".txt");
    assert ".txt"[1] != ".pdf"[1];
  }

  /** Any other extension is refused with a ValueError naming it: a file
      named `stem.txt` in any directory. */
  lemma TextExtensionRejected(dir: string, stem: string, raw: seq<string>)
    requires DirPrefix(dir) && PlainStem(stem)
    ensures Processed(dir + (stem + ".txt"), Success(raw)) == Failure(ValueError("Unsupported file type: .txt"))
  {
    PathExtension(dir + (stem + ".txt"), dir, stem, ".txt");
    TxtUnsupported();
  }

  /** A three-page document whose second page is blank yields two pages. */
  lemma BlankMiddlePageDropped()
    ensures PdfOutcome(Success(["Intro", " \n\t", "Body"]))
         == Success(ProcessedPdf("pdf", 2, ["Intro", "Body"], "Intro\nBody"))
  {
    var raw := ["Intro", " \n\t", "Body"];
    assert !IsBlank("Intro") by { assert !IsSpace("Intro"[0]); }
    assert !IsBlank("Body") by { assert !IsSpace("Body"[0]); }
    assert IsBlank(" \n\t");
    assert KeptPages(raw[..1]) == ["Intro"] by { assert raw[..1][..0] == []; }
    assert KeptPages(raw[..2]) == ["Intro"] by { assert raw[..2][..1] == raw[..1]; }
    assert KeptPages(raw) == ["Intro", "Body"] by { assert raw[..2] == raw[..|raw| - 1]; }
    assert Join("\n", ["Intro", "Body"]) == "Intro\nBody" by {
      assert ["Intro", "Body"][1..] == ["Body"];
    }
  }

  // ------------------------------------------------------------------ chunking

  /** The half-open range [lo, hi) of the text that one chunk copies. */
  datatype Window = Window(lo: nat, hi: nat)

  /** One pass of chunk_text's loop from a given `start`: the window of the chunk
      it appends, and either `break` (Last) or the `start` of the next pass. */
  datatype Step = Last(window: Window) | Next(window: Window, next: int)

  /** The windows appended by at most `fuel` passes, and whether the loop ended
      within them. */
  datatype Run = Run(windows: seq<Window>, complete: bool)

  /** chunk_text's result: the chunks, and whether the loop ended (false: the
      pass budget ran out while the Python loop would still be running). */
  datatype Chunking = Chunking(chunks: seq<string>, complete: bool)

  predicate InText(w: Window, n: nat) {
    w.lo <= w.hi <= n
  }

  predicate AllInText(windows: seq<Window>, n: nat) {
    forall i :: 0 <= i < |windows| ==> InText(windows[i], n)
  }

  /** One pass of the loop. `end` is taken from `start` before `start` steps back
      by `overlap`; slicing and rfind adjust negative bounds as Python does. */
  function ChunkStep(text: string, chunkSize: int, overlap: int, start: int): (s: Step)
    requires start < |text|
    ensures InText(s.window, |text|)
    ensures s.Last? ==> s.window.hi == |text|
    ensures s.Next? ==> s.next < |text|
  {
    var end := start + chunkSize;
    var from := if start > 0 then start - overlap else start;
    var lo := SliceBound(from, |text|);
    if end >= |text| then Last(Window(lo, |text|))
    else
      var lastPeriod := RFind(text, '.', from, end);
      var stop := if lastPeriod != -1 then lastPeriod + 1 else end;
      var hi := SliceBound(stop, |text|);
      Next(Window(lo, if lo < hi then hi else lo), stop)
  }

  /** The loop run from `start` for at most `fuel` passes. */
  function ChunkRun(text: string, chunkSize: int, overlap: int, start: int, fuel: nat): Run
    decreases fuel
  {
    if start >= |text| then Run([], true)
    else if fuel == 0 then Run([], false)
    else match ChunkStep(text, chunkSize, overlap, start)
      case Last(w) => Run([w], true)
      case Next(w, next) =>
        var rest := ChunkRun(text, chunkSize, overlap, next, fuel - 1);
        Run([w] + rest.windows, rest.complete)
  }

  /** The text a window copies; every window a run produces lies in the text
      (RunShape), so the empty fallback is never taken there. */
  function Cut(text: string, w: Window): string {
    if InText(w, |text|) then text[w.lo..w.hi] else []
  }

  /** The chunks that a sequence of windows copies out of the text. */
  function Chunks(text: string, windows: seq<Window>): (chunks: seq<string>)
    ensures |chunks| == |windows|
    decreases |windows|
  {
    if windows == [] then []
    else [Cut(text, windows[0])] + Chunks(text, windows[1..])
  }

  function Prepend(done: seq<Window>, run: Run): Run {
    Run(done + run.windows, run.complete)
  }

  /** One pass of the loop, as ChunkRun takes it. */
  lemma ChunkRunPass(text: string, chunkSize: int, overlap: int, start: int, fuel: nat)
    requires start < |text| && fuel > 0
    ensures var step := ChunkStep(text, chunkSize, overlap, start);
      ChunkRun(text, chunkSize, overlap, start, fuel)
        == if step.Last? then Run([step.window], true)
           else Prepend([step.window], ChunkRun(text, chunkSize, overlap, step.next, fuel - 1))
  {
  }

  lemma {:induction false} ChunksAppend(text: string, done: seq<Window>, w: Window)
    requires InText(w, |text|)
    ensures Chunks(text, done + [w]) == Chunks(text, done) + [text[w.lo..w.hi]]
    decreases |done|
  {
    if done != [] {
      assert (done + [w])[1..] == done[1..] + [w];
      ChunksAppend(text, done[1..], w);
    }
  }

  lemma PrependNothing(done: seq<Window>, complete: bool)
    ensures Prepend(done, Run([], complete)) == Run(done, complete)
  {
    assert done + [] == done;
  }

  lemma PrependPrepend(done: seq<Window>, w: Window, run: Run)
    ensures Prepend(done, Prepend([w], run)) == Prepend(done + [w], run)
  {
    assert done + ([w] + run.windows) == (done + [w]) + run.windows;
  }

  /** A text no longer than the chunk size is returned whole, as one chunk. */
  lemma ShortTextIsOneChunk(text: string, chunkSize: int, overlap: int, fuel: nat)
    requires 0 < |text| <= chunkSize && fuel > 0
    ensures ChunkRun(text, chunkSize, overlap, 0, fuel) == Run([Window(0, |text|)], true)
    ensures Chunks(text, [Window(0, |text|)]) == [text]
  {
    assert text[0..|text|] == text;
  }

  /** A pass that breaks appends the window ChunkStep describes. */
  lemma LastPassAgrees(text: string, chunkSize: int, overlap: int, start: int, from: int)
    requires start < |text| <= start + chunkSize
    requires from == if start > 0 then start - overlap else start
    ensures var step := ChunkStep(text, chunkSize, overlap, start);
      step.Last? && SliceFrom(text, from) == text[step.window.lo..step.window.hi]
  {
  }

  /** A pass that continues appends the window ChunkStep describes and moves to
      the `start` it names. */
  lemma NextPassAgrees(text: string, chunkSize: int, overlap: int, start: int, from: int, stop: int)
    requires start < |text| && start + chunkSize < |text|
    requires from == if start > 0 then start - overlap else start
    requires var lastPeriod := RFind(text, '.', from, start + chunkSize);
      stop == if lastPeriod != -1 then lastPeriod + 1 else start + chunkSize
    ensures var step := ChunkStep(text, chunkSize, overlap, start);
      step.Next? && step.next == stop && Slice(text, from, stop) == text[step.window.lo..step.window.hi]
  {
  }

  /** What one pass adds to the chunks taken so far and to the run that
      remains: its window moves from the remaining run to the done ones. */
  lemma PassExtendsRun(text: string, chunkSize: int, overlap: int, start: int, fuel: nat, done: seq<Window>)
    requires start < |text| && fuel > 0
    ensures var step := ChunkStep(text, chunkSize, overlap, start);
      var w := step.window;
      && Chunks(text, done + [w]) == Chunks(text, done) + [text[w.lo..w.hi]]
      && (step.Last? ==> Prepend(done, ChunkRun(text, chunkSize, overlap, start, fuel)) == Run(done + [w], true))
      && (step.Next? ==>
            Prepend(done, ChunkRun(text, chunkSize, overlap, start, fuel))
              == Prepend(done + [w], ChunkRun(text, chunkSize, overlap, step.next, fuel - 1)))
  {
    var step := ChunkStep(text, chunkSize, overlap, start);
    ChunkRunPass(text, chunkSize, overlap, start, fuel);
    ChunksAppend(text, done, step.window);
    if step.Next? {
      PrependPrepend(done, step.window, ChunkRun(text, chunkSize, overlap, step.next, fuel - 1));
    }
  }

  /** One pass of chunk_text's loop body from `start`: the chunk it appends,
      and either `break` or the `start` of the next pass. It performs the
      source's own steps (`end` from the old `start`, the step back, `rfind`,
      Python slicing with its negative-bound adjustment) so that ChunkText runs
      them as written; ChunkStep is the same pass with the bounds already
      adjusted, the form the lemmas reason about, and LastPassAgrees and
      NextPassAgrees show that the two agree. */
  method ChunkPass(text: string, chunkSize: int, overlap: int, start: int)
    returns (chunk: string, last: bool, next: int)
    requires start < |text|
    ensures var step := ChunkStep(text, chunkSize, overlap, start);
      && chunk == text[step.window.lo..step.window.hi]
      && last == step.Last?
      && (step.Next? ==> next == step.next)
  {
    var end := start + chunkSize;
    var from := start;
    if start > 0 {
      from := start - overlap;
    }
    if end >= |text| {
      LastPassAgrees(text, chunkSize, overlap, start, from);
      return SliceFrom(text, from), true, end;
    }
    var lastPeriod := RFind(text, '.', from, end);
    if lastPeriod != -1 {
      end := lastPeriod + 1;
    }
    NextPassAgrees(text, chunkSize, overlap, start, from, end);
    return Slice(text, from, end), false, end;
  }

  /** `chunk_text`, with at most `fuel` passes of its `while` loop; the chunk
      size and overlap default to 1000 and 200 as in the source. */
  method ChunkText(text: string, fuel: nat, chunkSize: int := 1000, overlap: int := 200) returns (r: Chunking)
    ensures var run := ChunkRun(text, chunkSize, overlap, 0, fuel);
      r == Chunking(Chunks(text, run.windows), run.complete)
    ensures |text| == 0 ==> r == Chunking([], true)
  {
    var chunks: seq<string> := [];
    ghost var done: seq<Window> := [];
    ghost var total := ChunkRun(text, chunkSize, overlap, 0, fuel);
    var start := 0;
    var passesLeft: nat := fuel;
    var complete := true;
    while start < |text|
      invariant chunks == Chunks(text, done)
      invariant total == Prepend(done, ChunkRun(text, chunkSize, overlap, start, passesLeft))
      invariant |text| == 0 ==> start == 0 && done == []
      decreases passesLeft
    {
      if passesLeft == 0 {
        complete := false;
        break;
      }
      var chunk, last, next := ChunkPass(text, chunkSize, overlap, start);
      ghost var w := ChunkStep(text, chunkSize, overlap, start).window;
      PassExtendsRun(text, chunkSize, overlap, start, passesLeft, done);
      chunks := chunks + [chunk];
      done := done + [w];
      if last {
        break;
      }
      start := next;
      passesLeft := passesLeft - 1;
    }
    PrependNothing(done, complete);
    r := Chunking(chunks, complete);
  }

  /** `''.join(chunks)`. */
  function Concat(chunks: seq<string>): string {
    if chunks == [] then [] else chunks[0] + Concat(chunks[1..])
  }

  lemma SplitAt(text: string, i: nat, j: nat)
    requires i <= j <= |text|
    ensures text[i..j] + text[j..] == text[i..]
  {
  }

  lemma ConcatCons(chunk: string, rest: seq<string>)
    ensures Concat([chunk] + rest) == chunk + Concat(rest)
  {
    assert ([chunk] + rest)[1..] == rest;
  }

  /** Once the loop has ended, more passes change nothing: a complete run is the
      result of chunk_text itself. */
  lemma {:induction false} CompleteRunIsFinal(text: string, chunkSize: int, overlap: int, start: int, fuel: nat, more: nat)
    requires ChunkRun(text, chunkSize, overlap, start, fuel).complete
    requires fuel <= more
    ensures ChunkRun(text, chunkSize, overlap, start, more) == ChunkRun(text, chunkSize, overlap, start, fuel)
    decreases fuel
  {
    if start < |text| {
      assert fuel > 0;
      var step := ChunkStep(text, chunkSize, overlap, start);
      ChunkRunPass(text, chunkSize, overlap, start, fuel);
      ChunkRunPass(text, chunkSize, overlap, start, more);
      if step.Next? {
        CompleteRunIsFinal(text, chunkSize, overlap, step.next, fuel - 1, more - 1);
      }
    }
  }

  /** Every window of a run lies in the text, so every chunk is a contiguous
      slice of it; and since the loop only ends by `break`, a complete run
      from inside the text ends with a window reaching the end: the last chunk
      is a suffix. */
  lemma {:induction false} RunShape(text: string, chunkSize: int, overlap: int, start: int, fuel: nat)
    ensures var run := ChunkRun(text, chunkSize, overlap, start, fuel);
      && AllInText(run.windows, |text|)
      && (start < |text| && run.complete ==>
            run.windows != [] && run.windows[|run.windows| - 1].hi == |text|)
    decreases fuel
  {
    if start < |text| && fuel > 0 {
      var step := ChunkStep(text, chunkSize, overlap, start);
      ChunkRunPass(text, chunkSize, overlap, start, fuel);
      if step.Next? {
        RunShape(text, chunkSize, overlap, step.next, fuel - 1);
        var rest := ChunkRun(text, chunkSize, overlap, step.next, fuel - 1);
        assert forall i :: 0 < i < |rest.windows| + 1 ==> ([step.window] + rest.windows)[i] == rest.windows[i - 1];
      }
    }
  }

  /** The first chunk is a non-empty prefix of at most `chunkSize` characters. */
  lemma FirstChunkIsPrefix(text: string, chunkSize: int, overlap: int, fuel: nat)
    requires |text| > 0 && chunkSize >= 1 && fuel >= 1
    ensures var run := ChunkRun(text, chunkSize, overlap, 0, fuel);
      run.windows != [] && run.windows[0].lo == 0 && 0 < run.windows[0].hi <= chunkSize
  {
    var step := ChunkStep(text, chunkSize, overlap, 0);
    assert step.window.lo == 0 && 0 < step.window.hi <= chunkSize;
  }

  /** Away from the wrap-around case, a pass that does not end the loop cuts
      just after the last '.' in [start - overlap, start + chunkSize), or at
      start + chunkSize when that range has no '.'; the next pass starts there. */
  lemma NonFinalChunkEndsAtLastPeriod(text: string, chunkSize: int, overlap: int, start: nat)
    requires start + chunkSize < |text|
    requires chunkSize >= 1 && 0 <= overlap && (start > 0 ==> overlap <= start)
    ensures var from := if start > 0 then start - overlap else start;
      var step := ChunkStep(text, chunkSize, overlap, start);
      var hi := step.window.hi;
      && step.Next? && step.window.lo == from && step.next == hi
      && (if exists k :: from <= k < start + chunkSize && text[k] == '.'
          then from < hi && text[hi - 1] == '.' && forall k :: hi <= k < start + chunkSize ==> text[k] != '.'
          else hi == start + chunkSize)
  {
    var from := if start > 0 then start - overlap else start;
    var lastPeriod := RFind(text, '.', from, start + chunkSize);
    if exists k :: from <= k < start + chunkSize && text[k] == '.' {
      var k :| from <= k < start + chunkSize && text[k] == '.';
      assert lastPeriod != -1;
    }
  }

  /** Away from the wrap-around case, the first chunk has at most `chunkSize`
      characters and every later one at most `chunkSize + overlap`: the doc
      comment's "maximum size" holds only for the first. */
  lemma ChunkLengthBound(text: string, chunkSize: int, overlap: int, start: nat)
    requires start < |text|
    requires chunkSize >= 1 && 0 <= overlap && (start > 0 ==> overlap <= start)
    ensures var w := ChunkStep(text, chunkSize, overlap, start).window;
      w.hi - w.lo <= chunkSize + (if start > 0 then overlap else 0)
  {
  }

  /** With an overlap of 2 the second chunk of "ABCDEFGHIJ" has 6 characters,
      more than the chunk size of 4. */
  lemma LaterChunkExceedsChunkSize()
    ensures ChunkRun("ABCDEFGHIJ", 4, 2, 0, 3)
         == Run([Window(0, 4), Window(2, 8), Window(6, 10)], true)
  {
    var t := "ABCDEFGHIJ";
    assert RFind(t, '.', 0, 4) == -1;
    assert RFind(t, '.', 2, 8) == -1;
    assert ChunkStep(t, 4, 2, 0) == Next(Window(0, 4), 4);
    assert ChunkStep(t, 4, 2, 4) == Next(Window(2, 8), 8);
    assert ChunkStep(t, 4, 2, 8) == Last(Window(6, 10));
  }

  /** Without overlap a pass copies from `start` itself and moves strictly forward. */
  lemma NoOverlapPass(text: string, chunkSize: int, start: nat)
    requires chunkSize >= 1 && start < |text|
    ensures var step := ChunkStep(text, chunkSize, 0, start);
      && step.window.lo == start
      && (step.Last? ==> step.window.hi == |text|)
      && (step.Next? ==> start < step.next == step.window.hi)
  {
  }

  lemma ChunksCons(text: string, w: Window, rest: seq<Window>)
    requires InText(w, |text|)
    ensures Chunks(text, [w] + rest) == [text[w.lo..w.hi]] + Chunks(text, rest)
  {
    assert ([w] + rest)[1..] == rest;
  }

  /** Without overlap and with a positive chunk size the loop ends within
      |text| - start passes and no chunk is empty. */
  lemma {:induction false} NoOverlapTerminates(text: string, chunkSize: int, start: nat, fuel: nat)
    requires chunkSize >= 1 && start <= |text| && |text| - start <= fuel
    ensures var run := ChunkRun(text, chunkSize, 0, start, fuel);
      && run.complete
      && (forall i :: 0 <= i < |run.windows| ==> run.windows[i].lo < run.windows[i].hi)
    decreases |text| - start
  {
    if start < |text| {
      var step := ChunkStep(text, chunkSize, 0, start);
      var run := ChunkRun(text, chunkSize, 0, start, fuel);
      NoOverlapPass(text, chunkSize, start);
      ChunkRunPass(text, chunkSize, 0, start, fuel);
      if step.Next? {
        NoOverlapTerminates(text, chunkSize, step.next, fuel - 1);
        var rest := ChunkRun(text, chunkSize, 0, step.next, fuel - 1);
        assert run.windows == [step.window] + rest.windows;
        forall i | 0 <= i < |run.windows|
          ensures run.windows[i].lo < run.windows[i].hi
        {
          if i > 0 {
            assert run.windows[i] == rest.windows[i - 1];
          }
        }
      }
    }
  }

  /** Without overlap and with a positive chunk size the chunks concatenate to
      the text from `start` on, whenever the loop ends. */
  lemma NoOverlapLastConcat(text: string, chunkSize: int, start: nat, fuel: nat)
    requires chunkSize >= 1 && start < |text| && fuel > 0
    requires ChunkStep(text, chunkSize, 0, start).Last?
    ensures Concat(Chunks(text, ChunkRun(text, chunkSize, 0, start, fuel).windows)) == text[start..]
  {
    var step := ChunkStep(text, chunkSize, 0, start);
    var run := ChunkRun(text, chunkSize, 0, start, fuel);
    NoOverlapPass(text, chunkSize, start);
    ChunkRunPass(text, chunkSize, 0, start, fuel);
    assert run.windows == [step.window] + [];
    ChunksCons(text, step.window, []);
    assert text[start..|text|] == text[start..];
    ConcatCons(text[start..], []);
    assert Concat(Chunks(text, run.windows)) == text[start..] + [];
  }

  lemma NoOverlapNextConcat(text: string, chunkSize: int, start: nat, fuel: nat)
    requires chunkSize >= 1 && start < |text| && fuel > 0
    requires ChunkStep(text, chunkSize, 0, start).Next?
    requires var next := ChunkStep(text, chunkSize, 0, start).next;
      0 <= next <= |text| &&
      Concat(Chunks(text, ChunkRun(text, chunkSize, 0, next, fuel - 1).windows)) == text[next..]
    ensures Concat(Chunks(text, ChunkRun(text, chunkSize, 0, start, fuel).windows)) == text[start..]
  {
    var step := ChunkStep(text, chunkSize, 0, start);
    var run := ChunkRun(text, chunkSize, 0, start, fuel);
    var next := step.next;
    NoOverlapPass(text, chunkSize, start);
    ChunkRunPass(text, chunkSize, 0, start, fuel);
    var rest := ChunkRun(text, chunkSize, 0, next, fuel - 1);
    assert run.windows == [step.window] + rest.windows;
    ChunksCons(text, step.window, rest.windows);
    ConcatCons(text[start..next], Chunks(text, rest.windows));
    SplitAt(text, start, next);
  }

  lemma {:induction false} NoOverlapConcatenation(text: string, chunkSize: int, start: nat, fuel: nat)
    requires chunkSize >= 1 && start <= |text|
    requires ChunkRun(text, chunkSize, 0, start, fuel).complete
    ensures Concat(Chunks(text, ChunkRun(text, chunkSize, 0, start, fuel).windows)) == text[start..]
    decreases fuel
  {
    if start < |text| {
      var step := ChunkStep(text, chunkSize, 0, start);
      NoOverlapPass(text, chunkSize, start);
      ChunkRunPass(text, chunkSize, 0, start, fuel);
      if step.Last? {
        NoOverlapLastConcat(text, chunkSize, start, fuel);
      } else {
        NoOverlapConcatenation(text, chunkSize, step.next, fuel - 1);
        NoOverlapNextConcat(text, chunkSize, start, fuel);
      }
    }
  }

  /** chunk_text(text, chunkSize, 0) with chunkSize >= 1 ends within |text|
      passes, returns no empty chunk, and its chunks concatenate to the text. */
  lemma NoOverlapChunksCoverText(text: string, chunkSize: int)
    requires chunkSize >= 1
    ensures var run := ChunkRun(text, chunkSize, 0, 0, |text|);
      && run.complete
      && (forall i :: 0 <= i < |run.windows| ==> run.windows[i].lo < run.windows[i].hi)
      && Concat(Chunks(text, run.windows)) == text
  {
    NoOverlapTerminates(text, chunkSize, 0, |text|);
    NoOverlapConcatenation(text, chunkSize, 0, |text|);
    assert text[0..] == text;
  }

  /** The text of the example below. */
  const Stuck: string := "A. BBBBBBBB"

  /** From `start` 2 the loop appends "A." and comes back to `start` 2. */
  lemma {:induction false} StuckLoopRepeats(fuel: nat)
    ensures !ChunkRun(Stuck, 5, 2, 2, fuel).complete
    decreases fuel
  {
    if fuel > 0 {
      assert RFind(Stuck, '.', 0, 7) == 1 by {
        assert Stuck[1] == '.';
        assert forall k :: 1 < k < 7 ==> Stuck[k] != '.';
      }
      assert ChunkStep(Stuck, 5, 2, 2) == Next(Window(0, 2), 2);
      StuckLoopRepeats(fuel - 1);
    }
  }

  /** A positive overlap does not guarantee termination even when the chunk size
      exceeds it: chunk_text("A. BBBBBBBB", 5, 2) never ends, whatever the
      number of passes allowed. */
  lemma OverlapMayNotTerminate(fuel: nat)
    ensures !ChunkRun(Stuck, 5, 2, 0, fuel).complete
  {
    if fuel > 0 {
      assert RFind(Stuck, '.', 0, 5) == 1 by {
        assert Stuck[1] == '.';
        assert forall k :: 1 < k < 5 ==> Stuck[k] != '.';
      }
      assert ChunkStep(Stuck, 5, 2, 0) == Next(Window(0, 2), 2);
      StuckLoopRepeats(fuel - 1);
    }
  }

  /** "A. B. C. D." in chunks of 5 with overlap 2: three chunks, each ending at
      a period. */
  lemma PeriodsBreakChunks()
    ensures var run := ChunkRun("A. B. C. D.", 5, 2, 0, 3);
      run == Run([Window(0, 5), Window(3, 8), Window(6, 11)], true)
      && Chunks("A. B. C. D.", run.windows) == ["A. B.", "B. C.", "C. D."]
  {
    var t := "A. B. C. D.";
    assert RFind(t, '.', 0, 5) == 4 by { assert t[4] == '.'; }
    assert RFind(t, '.', 3, 10) == 7 by {
      assert t[7] == '.';
      assert forall k :: 7 < k < 10 ==> t[k] != '.';
    }
    assert ChunkStep(t, 5, 2, 0) == Next(Window(0, 5), 5);
    assert ChunkStep(t, 5, 2, 5) == Next(Window(3, 8), 8);
    assert ChunkStep(t, 5, 2, 8) == Last(Window(6, 11));
    assert t[0..5] == "A. B.";
    assert t[3..8] == "B. C.";
    assert t[6..11] == "C. D.";
  }
}
