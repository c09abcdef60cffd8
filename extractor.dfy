/** `extract`: open `<root>/<base>.pdf`, and for each page `i` write a
    one-page document to `<root>/<base>_<i+1>.pdf`. The PDF library is
    abstracted away: a readable document is known only by its page count,
    and the files written are recorded, in order, in a write log. */
module Extractor {
  import opened Text
  import opened Scanner

  /** `os.path.join(dir, name)` for a relative `name`. */
  function Join(dir: string, name: string): string
  {
    dir + "/" + name
  }

  /** The file `extract` opens for a candidate. */
  function SourcePath(c: Candidate): string
  {
    Join(c.root, c.base + PDF_EXTENSION)
  }

  /** The file name, inside the candidate's directory, of output page `i` (0-based). */
  function OutputName(base: string, i: nat): string
  {
    base + "_" + NatToString(i + 1) + PDF_EXTENSION
  }

  /** One output file written: its directory, its name, and the 0-based
      index of the source page it holds. */
  datatype Write = Write(dir: string, name: string, page: nat)
  {
    function Path(): string
    {
      Join(dir, name)
    }
  }

  /** The files `extract` can see: the page count of every path holding a
      document the PDF library can read, and the paths it cannot open for
      writing. Any other path raises when opened for reading. */
  datatype FileSystem = FileSystem(pages: map<string, nat>, unwritable: set<string>)

  /** How a call of `extract` ends: it returns (always `True`) or it raises
      at a path. The `return False` after the re-raise is unreachable, so
      there is no third case. */
  datatype Outcome = Extracted | Raised(path: string)

  /** The outcome of an extraction together with the files it wrote. */
  datatype Effect = Effect(outcome: Outcome, writes: seq<Write>)

  /** The first `n` pages written in order. */
  function PageWrites(c: Candidate, n: nat): seq<Write>
  {
    seq(n, i requires 0 <= i < n => Write(c.root, OutputName(c.base, i), i))
  }

  /** The first page below `n` whose output cannot be opened for writing, or
      `n` when there is none. */
  function FirstBlocked(c: Candidate, n: nat, unwritable: set<string>): (k: nat)
    ensures k <= n
    ensures forall i :: 0 <= i < k ==> Join(c.root, OutputName(c.base, i)) !in unwritable
    ensures k < n ==> Join(c.root, OutputName(c.base, k)) in unwritable
  {
    if n == 0 then 0
    else
      var k := FirstBlocked(c, n - 1, unwritable);
      if k < n - 1 then k
      else if Join(c.root, OutputName(c.base, n - 1)) in unwritable then n - 1
      else n
  }

  /** The page loop over pages `0..n-1`: each page's output is opened and
      written in turn, and the first output that cannot be opened raises. */
  function PageLoopEffect(c: Candidate, n: nat, unwritable: set<string>): Effect
  {
    if n == 0 then Effect(Extracted, [])
    else
      var before := PageLoopEffect(c, n - 1, unwritable);
      var output := Join(c.root, OutputName(c.base, n - 1));
      if before.outcome.Raised? then before
      else if output in unwritable then Effect(Raised(output), before.writes)
      else Effect(Extracted, before.writes + [Write(c.root, OutputName(c.base, n - 1), n - 1)])
  }

  /** What `extract` does: raise when the source cannot be read; otherwise
      run the page loop over all its pages. */
  function ExtractEffect(c: Candidate, fs: FileSystem): Effect
  {
    var src := SourcePath(c);
    if src !in fs.pages then Effect(Raised(src), [])
    else PageLoopEffect(c, fs.pages[src], fs.unwritable)
  }

  /** The page loop writes the pages before the first blocked output, in
      order, and raises there; with no blocked output it writes every page. */
  lemma {:induction false} PageLoopEffectMeaning(c: Candidate, n: nat, unwritable: set<string>)
    ensures
      var k := FirstBlocked(c, n, unwritable);
      PageLoopEffect(c, n, unwritable) ==
        if k < n then Effect(Raised(Join(c.root, OutputName(c.base, k))), PageWrites(c, k))
        else Effect(Extracted, PageWrites(c, n))
  {
    if n == 0 {
      assert PageWrites(c, 0) == [];
    } else {
      PageLoopEffectMeaning(c, n - 1, unwritable);
      assert PageWrites(c, n) == PageWrites(c, n - 1) + [Write(c.root, OutputName(c.base, n - 1), n - 1)];
    }
  }

  /** `extract(data)`: the page loop, appending each written file to `log`. */
  method Extract(c: Candidate, fs: FileSystem, log: seq<Write>) returns (r: Outcome, log': seq<Write>)
    ensures r == ExtractEffect(c, fs).outcome
    ensures log' == log + ExtractEffect(c, fs).writes
  {
    var currentFile := Join(c.root, c.base + PDF_EXTENSION);
    log' := log;
    if currentFile !in fs.pages {
      return Raised(currentFile), log';
    }
    var totalPages := fs.pages[currentFile];
    var page := 0;
    while page < totalPages
      invariant 0 <= page <= totalPages
      invariant log' == log + PageWrites(c, page)
      invariant forall i :: 0 <= i < page ==> Join(c.root, OutputName(c.base, i)) !in fs.unwritable
    {
      var output := Join(c.root, c.base) + "_" + NatToString(page + 1) + PDF_EXTENSION;
      assert output == Join(c.root, OutputName(c.base, page));
      if output in fs.unwritable {
        assert FirstBlocked(c, totalPages, fs.unwritable) == page;
        PageLoopEffectMeaning(c, totalPages, fs.unwritable);
        return Raised(output), log';
      }
      assert PageWrites(c, page + 1) == PageWrites(c, page) + [Write(c.root, OutputName(c.base, page), page)];
      log' := log' + [Write(c.root, OutputName(c.base, page), page)];
      page := page + 1;
    }
    assert FirstBlocked(c, totalPages, fs.unwritable) == totalPages;
    PageLoopEffectMeaning(c, totalPages, fs.unwritable);
    r := Extracted;
  }

  /** The extraction succeeds exactly when the source is readable and every
      output can be opened; it then writes one file per page, page `i` to
      `<root>/<base>_<i+1>.pdf`. When it raises at output `k`, pages `0..k-1`
      stay written. */
  lemma ExtractEffectMeaning(c: Candidate, fs: FileSystem)
    ensures ExtractEffect(c, fs).outcome == Extracted <==>
      SourcePath(c) in fs.pages &&
      forall i :: 0 <= i < fs.pages[SourcePath(c)] ==> Join(c.root, OutputName(c.base, i)) !in fs.unwritable
    ensures SourcePath(c) !in fs.pages ==> ExtractEffect(c, fs) == Effect(Raised(SourcePath(c)), [])
    ensures ExtractEffect(c, fs).outcome == Extracted ==>
      ExtractEffect(c, fs).writes == PageWrites(c, fs.pages[SourcePath(c)])
    ensures SourcePath(c) in fs.pages && ExtractEffect(c, fs).outcome.Raised? ==>
      exists k :: 0 <= k < fs.pages[SourcePath(c)] &&
        ExtractEffect(c, fs).writes == PageWrites(c, k) &&
        ExtractEffect(c, fs).outcome.path == Join(c.root, OutputName(c.base, k)) &&
        ExtractEffect(c, fs).outcome.path in fs.unwritable
  {
    if SourcePath(c) in fs.pages {
      PageLoopEffectMeaning(c, fs.pages[SourcePath(c)], fs.unwritable);
    }
  }

  /** Every output file name contains a digit (the page number). */
  lemma OutputNameContainsNumber(base: string, i: nat)
    ensures ContainsNumber(OutputName(base, i))
  {
    var s := OutputName(base, i);
    assert s[|base| + 1] == NatToString(i + 1)[0];
  }

  /** Different pages of one candidate go to different files. */
  lemma OutputNamesDistinct(c: Candidate, i: nat, j: nat)
    requires i != j
    ensures Join(c.root, OutputName(c.base, i)) != Join(c.root, OutputName(c.base, j))
  {
    var p := c.root + "/" + c.base + "_";
    var di, dj := NatToString(i + 1), NatToString(j + 1);
    if Join(c.root, OutputName(c.base, i)) == Join(c.root, OutputName(c.base, j)) {
      var si := p + di + PDF_EXTENSION;
      var sj := p + dj + PDF_EXTENSION;
      assert si == Join(c.root, OutputName(c.base, i));
      assert sj == Join(c.root, OutputName(c.base, j));
      assert |di| == |dj|;
      assert di == si[|p|..|p| + |di|];
      assert dj == sj[|p|..|p| + |dj|];
      NatToStringInjective(i + 1, j + 1);
    }
  }

  /** No output overwrites the source document: every output path is longer. */
  lemma OutputIsNotSource(c: Candidate, i: nat)
    ensures Join(c.root, OutputName(c.base, i)) != SourcePath(c)
  {
  }

  /** The writes of `n` pages: `n` of them, the `i`-th holds page `i` under the
      name with page number `i + 1`, all paths distinct, none is the source,
      and every name contains a digit. */
  lemma PageWritesMeaning(c: Candidate, n: nat)
    ensures |PageWrites(c, n)| == n
    ensures forall i :: 0 <= i < n ==>
      PageWrites(c, n)[i].page == i && PageWrites(c, n)[i].dir == c.root &&
      PageWrites(c, n)[i].Path() == Join(c.root, c.base) + "_" + NatToString(i + 1) + PDF_EXTENSION
    ensures forall i, j :: 0 <= i < j < n ==> PageWrites(c, n)[i].Path() != PageWrites(c, n)[j].Path()
    ensures forall i :: 0 <= i < n ==> PageWrites(c, n)[i].Path() != SourcePath(c)
    ensures forall i :: 0 <= i < n ==> ContainsNumber(PageWrites(c, n)[i].name)
  {
    var w := PageWrites(c, n);
    forall i, j | 0 <= i < j < n
      ensures w[i].Path() != w[j].Path()
    {
      OutputNamesDistinct(c, i, j);
    }
    forall i | 0 <= i < n
      ensures w[i].Path() != SourcePath(c) && ContainsNumber(w[i].name)
    {
      OutputIsNotSource(c, i);
      OutputNameContainsNumber(c.base, i);
    }
  }

  /** Page `i` of the first `n` is among their writes, under its numbered name. */
  lemma PageWritesContain(c: Candidate, n: nat, i: nat)
    requires i < n
    ensures Write(c.root, OutputName(c.base, i), i) in PageWrites(c, n)
  {
    assert PageWrites(c, n)[i] == Write(c.root, OutputName(c.base, i), i);
  }

  /** For a file named `stem + ".pdf"` with no other ".pdf" inside, the
      candidate the scan builds reopens exactly that file. */
  lemma ExtractReopensSelectedFile(root: string, stem: string)
    requires forall i :: 0 <= i < |stem| ==> !OccursAt(stem + PDF_EXTENSION, PDF_EXTENSION, i)
    ensures SourcePath(Candidate(root, BaseName(stem + PDF_EXTENSION))) == Join(root, stem + PDF_EXTENSION)
  {
    BaseNameRestoresFile(stem);
  }

  /** The file `a.pdf.pdf` is selected, but `extract` opens `a.pdf`. */
  lemma ExtractOpensOtherFileForDoubleExtension(root: string)
    ensures SourcePath(Candidate(root, BaseName("a.pdf.pdf"))) == Join(root, "a.pdf")
    ensures Join(root, "a.pdf") != Join(root, "a.pdf.pdf")
  {
  }

  /** Whenever the stem of a selected file `stem + ".pdf"` holds another
      ".pdf", `extract` opens a file other than the one selected. */
  lemma ExtractOpensOtherFile(root: string, stem: string, p: nat)
    requires OccursAt(stem, PDF_EXTENSION, p)
    ensures SourcePath(Candidate(root, BaseName(stem + PDF_EXTENSION))) != Join(root, stem + PDF_EXTENSION)
  {
    var file := stem + PDF_EXTENSION;
    assert file[p..p + |PDF_EXTENSION|] == stem[p..p + |PDF_EXTENSION|];
    assert file[|stem|..|stem| + |PDF_EXTENSION|] == PDF_EXTENSION;
    assert |BaseName(file)| <= |stem| - |PDF_EXTENSION| by {
      RemoveAllShrinksTwice(file, PDF_EXTENSION, p, |stem|);
    }
  }
}
