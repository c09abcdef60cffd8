/** The run: scan once, then call `extract` on every candidate in scan order.
    `extract` re-raises whatever goes wrong, and nothing catches it at the
    top level, so the first failure ends the run. Also: a second scan, after
    the first run's outputs are in place, skips every directory written to. */
module Driver {
  import opened Text
  import opened Scanner
  import opened Extractor

  /** The effect of extracting `candidates` in order, stopping at the first raise. */
  function RunEffect(candidates: seq<Candidate>, fs: FileSystem): Effect
  {
    if candidates == [] then Effect(Extracted, [])
    else
      var before := RunEffect(candidates[..|candidates| - 1], fs);
      if before.outcome.Raised? then before
      else
        var e := ExtractEffect(candidates[|candidates| - 1], fs);
        Effect(e.outcome, before.writes + e.writes)
  }

  /** Once a prefix of the candidates has raised, later candidates change nothing. */
  lemma {:induction false} RaisedIsFinal(candidates: seq<Candidate>, fs: FileSystem, m: nat)
    requires m <= |candidates|
    requires RunEffect(candidates[..m], fs).outcome.Raised?
    ensures RunEffect(candidates, fs) == RunEffect(candidates[..m], fs)
    decreases |candidates|
  {
    if m < |candidates| {
      var init := candidates[..|candidates| - 1];
      assert init[..m] == candidates[..m];
      RaisedIsFinal(init, fs, m);
    } else {
      assert candidates[..m] == candidates;
    }
  }

  /** One more candidate after a completed prefix: its outcome, and its
      writes appended to the prefix's. */
  lemma RunStep(candidates: seq<Candidate>, fs: FileSystem, i: nat)
    requires i < |candidates|
    requires RunEffect(candidates[..i], fs).outcome == Extracted
    ensures RunEffect(candidates[..i + 1], fs).outcome == ExtractEffect(candidates[i], fs).outcome
    ensures RunEffect(candidates[..i + 1], fs).writes ==
      RunEffect(candidates[..i], fs).writes + ExtractEffect(candidates[i], fs).writes
  {
    assert candidates[..i + 1][..i] == candidates[..i];
  }

  /** The loop over `files_to_handle`; a raise ends it. */
  method ExtractAll(candidates: seq<Candidate>, fs: FileSystem, log: seq<Write>) returns (r: Outcome, log': seq<Write>)
    ensures r == RunEffect(candidates, fs).outcome
    ensures log' == log + RunEffect(candidates, fs).writes
  {
    r, log' := Extracted, log;
    var i := 0;
    while i < |candidates| && r == Extracted
      invariant 0 <= i <= |candidates|
      invariant r == RunEffect(candidates[..i], fs).outcome
      invariant log' == log + RunEffect(candidates[..i], fs).writes
    {
      RunStep(candidates, fs, i);
      r, log' := Extract(candidates[i], fs, log');
      i := i + 1;
    }
    if r.Raised? {
      RaisedIsFinal(candidates, fs, i);
    } else {
      assert candidates[..i] == candidates;
    }
  }

  /** The whole script: both passes over the walk, then the extraction loop. */
  method Run(walk: seq<Dir>, force: bool, fs: FileSystem) returns (r: Outcome, log: seq<Write>)
    ensures r == RunEffect(Candidates(walk, IgnoredRoots(walk, force)), fs).outcome
    ensures log == RunEffect(Candidates(walk, IgnoredRoots(walk, force)), fs).writes
  {
    var candidates, ignore := Scan(walk, force);
    r, log := ExtractAll(candidates, fs, []);
  }

  /** The run completes exactly when every candidate's extraction would succeed. */
  lemma {:induction false} RunSucceedsIff(candidates: seq<Candidate>, fs: FileSystem)
    ensures RunEffect(candidates, fs).outcome == Extracted <==>
      forall m :: 0 <= m < |candidates| ==> ExtractEffect(candidates[m], fs).outcome == Extracted
  {
    if candidates != [] {
      var init := candidates[..|candidates| - 1];
      RunSucceedsIff(init, fs);
      assert forall m :: 0 <= m < |init| ==> init[m] == candidates[m];
    }
  }

  /** When candidate `m` is the first to fail, the run raises there, keeps
      what the earlier candidates and the failing one wrote, and never
      touches the candidates after it. */
  lemma RunStopsAtFirstFailure(candidates: seq<Candidate>, fs: FileSystem, m: nat)
    requires m < |candidates|
    requires forall j :: 0 <= j < m ==> ExtractEffect(candidates[j], fs).outcome == Extracted
    requires ExtractEffect(candidates[m], fs).outcome.Raised?
    ensures RunEffect(candidates, fs) ==
      Effect(ExtractEffect(candidates[m], fs).outcome,
             RunEffect(candidates[..m], fs).writes + ExtractEffect(candidates[m], fs).writes)
  {
    var pre := candidates[..m];
    RunSucceedsIff(pre, fs);
    assert candidates[..m + 1][..m] == pre;
    RaisedIsFinal(candidates, fs, m + 1);
  }

  /** After a completed run, page `i` of candidate `m` is in the write log
      under its numbered name. */
  lemma {:induction false} RunWritesPage(candidates: seq<Candidate>, fs: FileSystem, m: nat, i: nat)
    requires RunEffect(candidates, fs).outcome == Extracted
    requires m < |candidates|
    requires SourcePath(candidates[m]) in fs.pages && i < fs.pages[SourcePath(candidates[m])]
    ensures Write(candidates[m].root, OutputName(candidates[m].base, i), i) in RunEffect(candidates, fs).writes
    decreases |candidates|
  {
    var init := candidates[..|candidates| - 1];
    var last := candidates[|candidates| - 1];
    var before := RunEffect(init, fs);
    assert before.outcome == Extracted;
    assert RunEffect(candidates, fs).writes == before.writes + ExtractEffect(last, fs).writes;
    if m == |candidates| - 1 {
      ExtractEffectMeaning(last, fs);
      PageWritesContain(last, fs.pages[SourcePath(last)], i);
    } else {
      assert init[m] == candidates[m];
      RunWritesPage(init, fs, m, i);
    }
  }

  /** After a completed run, every candidate's source was readable and every
      page of every candidate was written to its numbered output file. */
  lemma RunWritesEveryPage(candidates: seq<Candidate>, fs: FileSystem)
    requires RunEffect(candidates, fs).outcome == Extracted
    ensures forall m :: 0 <= m < |candidates| ==> SourcePath(candidates[m]) in fs.pages
    ensures forall m, i ::
              0 <= m < |candidates| && SourcePath(candidates[m]) in fs.pages &&
              0 <= i < fs.pages[SourcePath(candidates[m])] ==>
              Write(candidates[m].root, OutputName(candidates[m].base, i), i) in RunEffect(candidates, fs).writes
  {
    RunSucceedsIff(candidates, fs);
    forall m | 0 <= m < |candidates|
      ensures SourcePath(candidates[m]) in fs.pages
    {
      ExtractEffectMeaning(candidates[m], fs);
    }
    forall m, i | 0 <= m < |candidates| && SourcePath(candidates[m]) in fs.pages &&
                  0 <= i < fs.pages[SourcePath(candidates[m])]
      ensures Write(candidates[m].root, OutputName(candidates[m].base, i), i) in RunEffect(candidates, fs).writes
    {
      RunWritesPage(candidates, fs, m, i);
    }
  }

  /** Everything one extraction writes has a digit in its name and lies in
      the candidate's directory. */
  lemma ExtractWritesNumbered(c: Candidate, fs: FileSystem)
    ensures forall w :: w in ExtractEffect(c, fs).writes ==> ContainsNumber(w.name) && w.dir == c.root
  {
    ExtractEffectMeaning(c, fs);
    if SourcePath(c) in fs.pages {
      var n := fs.pages[SourcePath(c)];
      PageWritesMeaning(c, n);
      var k := FirstBlocked(c, n, fs.unwritable);
      PageWritesMeaning(c, k);
      PageLoopEffectMeaning(c, n, fs.unwritable);
    }
  }

  /** Everything a run writes has a digit in its name and lies in the
      directory of one of the candidates. */
  lemma {:induction false} RunWritesNumbered(candidates: seq<Candidate>, fs: FileSystem)
    ensures forall w :: w in RunEffect(candidates, fs).writes ==>
      ContainsNumber(w.name) && exists m :: 0 <= m < |candidates| && candidates[m].root == w.dir
  {
    if candidates != [] {
      var init := candidates[..|candidates| - 1];
      var last := candidates[|candidates| - 1];
      RunWritesNumbered(init, fs);
      ExtractWritesNumbered(last, fs);
      assert forall m :: 0 <= m < |init| ==> init[m] == candidates[m];
    }
  }

  /** The names of the files in `writes` that lie in directory `dir`. */
  function NamesWrittenTo(writes: seq<Write>, dir: string): seq<string>
  {
    if writes == [] then []
    else
      var last := writes[|writes| - 1];
      NamesWrittenTo(writes[..|writes| - 1], dir) + (if last.dir == dir then [last.name] else [])
  }

  /** Every file written to `dir` is listed among the names written there. */
  lemma {:induction false} NamesWrittenToComplete(writes: seq<Write>, dir: string, m: nat)
    requires m < |writes| && writes[m].dir == dir
    ensures writes[m].name in NamesWrittenTo(writes, dir)
  {
    if m < |writes| - 1 {
      var init := writes[..|writes| - 1];
      assert init[m] == writes[m];
      NamesWrittenToComplete(init, dir, m);
    }
  }

  /** The walk a later run sees: each directory also lists the files written to it. */
  function Rewalk(walk: seq<Dir>, writes: seq<Write>): (walk': seq<Dir>)
    ensures |walk'| == |walk|
  {
    seq(|walk|, k requires 0 <= k < |walk| => Dir(walk[k].root, walk[k].files + NamesWrittenTo(writes, walk[k].root)))
  }

  /** A directory that holds any output file of an extraction is ignored
      by a scan without `force`, and yields no candidates. */
  lemma SecondScanSkipsSplitDirectory(walk: seq<Dir>, k: nat, base: string, i: nat)
    requires k < |walk|
    requires OutputName(base, i) in walk[k].files
    ensures walk[k].root in IgnoredRoots(walk, false)
    ensures forall c :: c in Candidates(walk, IgnoredRoots(walk, false)) ==> c.root != walk[k].root
  {
    OutputNameContainsNumber(base, i);
    var j :| 0 <= j < |walk[k].files| && walk[k].files[j] == OutputName(base, i);
    IgnoredRootsMembership(walk, false, walk[k].root);
    forall c | c in Candidates(walk, IgnoredRoots(walk, false))
      ensures c.root != walk[k].root
    {
      CandidateDirectoryIsClean(walk, c);
    }
  }

  /** The rescan lists, in each directory, every file written to it. */
  lemma RewalkListsWrite(walk: seq<Dir>, writes: seq<Write>, k: nat, m: nat)
    requires k < |walk| && m < |writes| && writes[m].dir == walk[k].root
    ensures writes[m].name in Rewalk(walk, writes)[k].files
  {
    NamesWrittenToComplete(writes, walk[k].root, m);
  }

  /** A directory that received a numbered file is ignored by the rescan,
      so no candidate of the rescan lies in it. */
  lemma WrittenDirectoryYieldsNothing(walk: seq<Dir>, writes: seq<Write>, m: nat, c: Candidate)
    requires m < |writes| && ContainsNumber(writes[m].name)
    requires c in Candidates(Rewalk(walk, writes), IgnoredRoots(Rewalk(walk, writes), false))
    ensures c.root != writes[m].dir
  {
    var walk' := Rewalk(walk, writes);
    if c.root == writes[m].dir {
      CandidateRootIsWalked(walk', IgnoredRoots(walk', false), c);
      var k :| 0 <= k < |walk'| && walk'[k].root == c.root;
      RewalkListsWrite(walk, writes, k, m);
      var j :| 0 <= j < |walk'[k].files| && walk'[k].files[j] == writes[m].name;
      CandidateDirectoryIsClean(walk', c);
      assert false;
    }
  }

  /** Running again without `force`, after a run whose outputs are in place,
      yields no candidate in any directory the first run wrote to. */
  lemma SecondRunSkipsWrittenDirectories(walk: seq<Dir>, fs: FileSystem)
    ensures
      var first := RunEffect(Candidates(walk, IgnoredRoots(walk, false)), fs).writes;
      var walk' := Rewalk(walk, first);
      forall m, c :: 0 <= m < |first| && c in Candidates(walk', IgnoredRoots(walk', false)) ==>
        c.root != first[m].dir
  {
    var first := RunEffect(Candidates(walk, IgnoredRoots(walk, false)), fs).writes;
    var walk' := Rewalk(walk, first);
    RunWritesNumbered(Candidates(walk, IgnoredRoots(walk, false)), fs);
    forall m, c | 0 <= m < |first| && c in Candidates(walk', IgnoredRoots(walk', false))
      ensures c.root != first[m].dir
    {
      assert first[m] in first;
      WrittenDirectoryYieldsNothing(walk, first, m, c);
    }
  }
}
