/** The two passes over the directory walk: the list of directories to ignore
    (`paths_to_ignore`) and the list of files to split (`files_to_handle`).
    The walk is a fixed snapshot read twice; each entry is one `(root, files)`
    triple of `os.walk` without its sub-directory list. */
module Scanner {
  import opened Text

  const PDF_EXTENSION := ".pdf"

  /** One directory of the walk: its path and the names of the files directly in it. */
  datatype Dir = Dir(root: string, files: seq<string>)

  /** An entry of `files_to_handle`: the directory and the file name with
      every ".pdf" removed. */
  datatype Candidate = Candidate(root: string, base: string)

  /** Some file name in the list contains a digit. */
  predicate HasNumberedFile(files: seq<string>)
  {
    exists j :: 0 <= j < |files| && ContainsNumber(files[j])
  }

  /** `paths_to_ignore` after the first pass over `walk`: each root, in walk
      order, that holds a digit-bearing file name, unless `force` is set. */
  function IgnoredRoots(walk: seq<Dir>, force: bool): seq<string>
  {
    if walk == [] then []
    else
      var last := walk[|walk| - 1];
      IgnoredRoots(walk[..|walk| - 1], force)
        + (if HasNumberedFile(last.files) && !force then [last.root] else [])
  }

  /** `file.replace(".pdf", "")`. */
  function BaseName(file: string): string
  {
    RemoveAll(file, PDF_EXTENSION)
  }

  /** The test of the second pass for one file of directory `root`. */
  predicate Selected(file: string, root: string, ignore: seq<string>)
  {
    EndsWith(file, PDF_EXTENSION) && !ContainsNumber(file) && root !in ignore
  }

  /** The candidates one directory contributes, in file-list order. */
  function DirCandidates(root: string, files: seq<string>, ignore: seq<string>): seq<Candidate>
  {
    if files == [] then []
    else
      var last := files[|files| - 1];
      DirCandidates(root, files[..|files| - 1], ignore)
        + (if Selected(last, root, ignore) then [Candidate(root, BaseName(last))] else [])
  }

  /** `files_to_handle` after the second pass over `walk`. */
  function Candidates(walk: seq<Dir>, ignore: seq<string>): seq<Candidate>
  {
    if walk == [] then []
    else
      var last := walk[|walk| - 1];
      Candidates(walk[..|walk| - 1], ignore) + DirCandidates(last.root, last.files, ignore)
  }

  /** The first loop: for each directory, the first digit-bearing file name
      (when `force` is unset) records the directory and ends the inner scan. */
  method BuildIgnoreList(walk: seq<Dir>, force: bool) returns (ignore: seq<string>)
    ensures ignore == IgnoredRoots(walk, force)
  {
    ignore := [];
    var i := 0;
    while i < |walk|
      invariant 0 <= i <= |walk|
      invariant ignore == IgnoredRoots(walk[..i], force)
    {
      var root, files := walk[i].root, walk[i].files;
      assert walk[..i + 1][..i] == walk[..i];
      var j := 0;
      while j < |files|
        invariant 0 <= j <= |files|
        invariant ignore == IgnoredRoots(walk[..i], force)
        invariant !force ==> forall k :: 0 <= k < j ==> !ContainsNumber(files[k])
      {
        if ContainsNumber(files[j]) && !force {
          ignore := ignore + [root];
          break;
        }
        j := j + 1;
      }
      i := i + 1;
    }
    assert walk[..|walk|] == walk;
  }

  /** The second loop: every file that ends in ".pdf", has no digit and lies
      in a directory not ignored becomes a candidate, in walk order. */
  method BuildCandidates(walk: seq<Dir>, ignore: seq<string>) returns (candidates: seq<Candidate>)
    ensures candidates == Candidates(walk, ignore)
  {
    candidates := [];
    var i := 0;
    while i < |walk|
      invariant 0 <= i <= |walk|
      invariant candidates == Candidates(walk[..i], ignore)
    {
      var root, files := walk[i].root, walk[i].files;
      assert walk[..i + 1][..i] == walk[..i];
      ghost var before := candidates;
      var j := 0;
      while j < |files|
        invariant 0 <= j <= |files|
        invariant candidates == before + DirCandidates(root, files[..j], ignore)
      {
        assert files[..j + 1][..j] == files[..j];
        var file := files[j];
        if EndsWith(file, PDF_EXTENSION) && !ContainsNumber(file) && root !in ignore {
          candidates := candidates + [Candidate(root, BaseName(file))];
        }
        j := j + 1;
      }
      assert files[..|files|] == files;
      i := i + 1;
    }
    assert walk[..|walk|] == walk;
  }

  /** Both passes over the same snapshot. */
  method Scan(walk: seq<Dir>, force: bool) returns (candidates: seq<Candidate>, ignore: seq<string>)
    ensures ignore == IgnoredRoots(walk, force)
    ensures candidates == Candidates(walk, ignore)
  {
    ignore := BuildIgnoreList(walk, force);
    candidates := BuildCandidates(walk, ignore);
  }

  /** A root is ignored exactly when `force` is unset and some directory of
      the walk with that root holds a digit-bearing file name. */
  lemma {:induction false} IgnoredRootsMembership(walk: seq<Dir>, force: bool, r: string)
    ensures r in IgnoredRoots(walk, force) <==>
      !force && exists k :: 0 <= k < |walk| && walk[k].root == r && HasNumberedFile(walk[k].files)
  {
    if walk != [] {
      var init := walk[..|walk| - 1];
      IgnoredRootsMembership(init, force, r);
      assert forall k :: 0 <= k < |init| ==> init[k] == walk[k];
    }
  }

  /** With `force` set nothing is ignored. */
  lemma {:induction false} ForceIgnoresNothing(walk: seq<Dir>)
    ensures IgnoredRoots(walk, true) == []
  {
    if walk != [] {
      ForceIgnoresNothing(walk[..|walk| - 1]);
    }
  }

  /** A candidate of one directory comes from a selected file of that directory. */
  lemma {:induction false} DirCandidatesMembership(root: string, files: seq<string>, ignore: seq<string>, c: Candidate)
    ensures c in DirCandidates(root, files, ignore) <==>
      c.root == root &&
      exists j :: 0 <= j < |files| && Selected(files[j], root, ignore) && c.base == BaseName(files[j])
  {
    if files != [] {
      var init := files[..|files| - 1];
      DirCandidatesMembership(root, init, ignore, c);
      assert forall j :: 0 <= j < |init| ==> init[j] == files[j];
    }
  }

  /** A pair is a candidate exactly when the walk has, in that root, a file
      that ends in ".pdf", contains no digit, lies in a directory not ignored,
      and whose name with every ".pdf" removed is the pair's base. */
  lemma {:induction false} CandidatesMembership(walk: seq<Dir>, ignore: seq<string>, c: Candidate)
    ensures c in Candidates(walk, ignore) <==>
      exists k, j :: 0 <= k < |walk| && 0 <= j < |walk[k].files| && walk[k].root == c.root &&
        Selected(walk[k].files[j], c.root, ignore) && c.base == BaseName(walk[k].files[j])
  {
    if walk != [] {
      var init := walk[..|walk| - 1];
      var last := walk[|walk| - 1];
      CandidatesMembership(init, ignore, c);
      DirCandidatesMembership(last.root, last.files, ignore, c);
      assert forall k :: 0 <= k < |init| ==> init[k] == walk[k];
    }
  }

  /** Candidates of a file list split in two: the first part's come first. */
  lemma {:induction false} DirCandidatesAppend(root: string, f1: seq<string>, f2: seq<string>, ignore: seq<string>)
    ensures DirCandidates(root, f1 + f2, ignore) == DirCandidates(root, f1, ignore) + DirCandidates(root, f2, ignore)
    decreases |f2|
  {
    if f2 != [] {
      var init := f2[..|f2| - 1];
      assert (f1 + f2)[..|f1 + f2| - 1] == f1 + init;
      DirCandidatesAppend(root, f1, init, ignore);
    } else {
      assert f1 + f2 == f1;
    }
  }

  /** Candidates of a walk split in two: the first part's come first. */
  lemma {:induction false} CandidatesAppend(w1: seq<Dir>, w2: seq<Dir>, ignore: seq<string>)
    ensures Candidates(w1 + w2, ignore) == Candidates(w1, ignore) + Candidates(w2, ignore)
    decreases |w2|
  {
    if w2 != [] {
      var init := w2[..|w2| - 1];
      assert (w1 + w2)[..|w1 + w2| - 1] == w1 + init;
      CandidatesAppend(w1, init, ignore);
    } else {
      assert w1 + w2 == w1;
    }
  }

  /** A directory contributes exactly its own selected files, in file-list order. */
  lemma {:induction false} CandidatesOfOneDir(d: Dir, ignore: seq<string>)
    ensures Candidates([d], ignore) == DirCandidates(d.root, d.files, ignore)
  {
  }

  /** Every candidate lies in a directory of the walk. */
  lemma CandidateRootIsWalked(walk: seq<Dir>, ignore: seq<string>, c: Candidate)
    requires c in Candidates(walk, ignore)
    ensures exists k :: 0 <= k < |walk| && walk[k].root == c.root
  {
    CandidatesMembership(walk, ignore, c);
  }

  /** With `force` unset, no file of any directory sharing a candidate's root
      contains a digit; and a candidate never comes from an ignored root. */
  lemma CandidateDirectoryIsClean(walk: seq<Dir>, c: Candidate)
    requires c in Candidates(walk, IgnoredRoots(walk, false))
    ensures c.root !in IgnoredRoots(walk, false)
    ensures forall k, j :: 0 <= k < |walk| && walk[k].root == c.root && 0 <= j < |walk[k].files| ==>
      !ContainsNumber(walk[k].files[j])
  {
    CandidatesMembership(walk, IgnoredRoots(walk, false), c);
    IgnoredRootsMembership(walk, false, c.root);
  }

  /** Whatever `force` is, a candidate's file name ends in ".pdf", has no digit,
      and its base has no digit either. */
  lemma CandidateSourceIsDigitFree(walk: seq<Dir>, force: bool, c: Candidate)
    requires c in Candidates(walk, IgnoredRoots(walk, force))
    ensures exists k, j ::
              0 <= k < |walk| && 0 <= j < |walk[k].files| && walk[k].root == c.root &&
              EndsWith(walk[k].files[j], PDF_EXTENSION) && !ContainsNumber(walk[k].files[j]) &&
              c.base == BaseName(walk[k].files[j])
    ensures !ContainsNumber(c.base)
  {
    CandidatesMembership(walk, IgnoredRoots(walk, force), c);
    var k, j :| 0 <= k < |walk| && 0 <= j < |walk[k].files| && walk[k].root == c.root &&
      Selected(walk[k].files[j], c.root, IgnoredRoots(walk, force)) && c.base == BaseName(walk[k].files[j]);
    RemoveAllKeepsDigitFree(walk[k].files[j], PDF_EXTENSION);
  }

  /** With `force` set, every digit-free ".pdf" file of the walk is a candidate. */
  lemma ForcedScanSelectsEveryPdf(walk: seq<Dir>, k: nat, j: nat)
    requires k < |walk| && j < |walk[k].files|
    requires EndsWith(walk[k].files[j], PDF_EXTENSION) && !ContainsNumber(walk[k].files[j])
    ensures Candidate(walk[k].root, BaseName(walk[k].files[j])) in Candidates(walk, IgnoredRoots(walk, true))
  {
    ForceIgnoresNothing(walk);
    CandidatesMembership(walk, [], Candidate(walk[k].root, BaseName(walk[k].files[j])));
  }

  /** A file named `stem + ".pdf"` with no other ".pdf" inside has base
      `stem`, so `base + ".pdf"` names the file that was selected. */
  lemma BaseNameRestoresFile(stem: string)
    requires forall i :: 0 <= i < |stem| ==> !OccursAt(stem + PDF_EXTENSION, PDF_EXTENSION, i)
    ensures BaseName(stem + PDF_EXTENSION) == stem
    ensures BaseName(stem + PDF_EXTENSION) + PDF_EXTENSION == stem + PDF_EXTENSION
  {
    RemoveAllSuffixOnly(stem, PDF_EXTENSION);
  }

  /** The replace removes every ".pdf", not only the suffix: reattaching
      ".pdf" to the base of `a.pdf.pdf` names a different file. */
  lemma BaseNameDropsInnerExtension()
    ensures BaseName("a.pdf.pdf") == "a"
    ensures BaseName("a.pdf.pdf") + PDF_EXTENSION != "a.pdf.pdf"
  {
  }

  /** For any file name `stem + ".pdf"` whose stem holds another ".pdf",
      reattaching ".pdf" to the base does not give back the file name. */
  lemma BaseNameDropsInnerExtensionGeneral(stem: string, p: nat)
    requires OccursAt(stem, PDF_EXTENSION, p)
    ensures BaseName(stem + PDF_EXTENSION) + PDF_EXTENSION != stem + PDF_EXTENSION
  {
    var s := stem + PDF_EXTENSION;
    assert s[p..p + |PDF_EXTENSION|] == stem[p..p + |PDF_EXTENSION|];
    assert s[|stem|..|stem| + |PDF_EXTENSION|] == PDF_EXTENSION;
    RemoveAllShrinksTwice(s, PDF_EXTENSION, p, |stem|);
  }
}
