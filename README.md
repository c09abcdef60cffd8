# pdf-extractor, modelled in Dafny

`pdf-extractor.py` walks a directory tree and splits every eligible PDF into
one file per page, named `<base>_<page>.pdf` beside the original. This
project models its logic:

- **Scan** (module `Scanner`, `scanner.dfy`). There are two passes over one
  snapshot of the walk. Each walk entry is a `Dir(root, files)`. The first
  pass builds `paths_to_ignore`: a directory goes in when one of its file
  names holds a digit and `force` is unset. The second pass builds
  `files_to_handle` as `Candidate(root, base)` pairs. A file qualifies when
  it ends in `.pdf`, has no digit, and its directory is not ignored. Both
  loops are methods, proved equal to left-recursive specification functions
  (`IgnoredRoots`, `Candidates`). Lemmas then state membership both ways,
  order, and the digit rules.
- **Text helpers** (module `Text`, `text.dfy`). `contains_number` is here. So
  is `str.replace(".pdf", "")` (`RemoveAll`), which removes every occurrence
  of `.pdf`, not only the suffix. The page number `str(i + 1)` is here too,
  with its inverse (`ParseDecimal`).
- **Extraction** (module `Extractor`, `extractor.dfy`). `extract(data)` is a
  method with the page loop. It appends one `Write(dir, name, page)` per
  page to a write log that it threads through. The document is known only by
  its page count. The readable files and the paths that cannot be opened for
  writing make up a `FileSystem` value. Its meaning is the function
  `ExtractEffect`. The lemmas about it cover the number of outputs, the
  1-based names, distinctness, "the source is never overwritten", and "every
  output name holds a digit".
- **Driver** (module `Driver`, `driver.dfy`). The loop over
  `files_to_handle` (`ExtractAll`) and the whole script (`Run`) are here.
  The bare `except: raise` in `extract` and the unguarded top-level loop mean
  the first failure aborts the run. The model reproduces this, and
  `RunStopsAtFirstFailure` states it. Idempotence is proved here as well. A
  second scan without `force` sees the first run's outputs next to their
  sources, so it skips every directory the first run wrote to.

Two places where the code's own intent and its behaviour part ways. The
model follows the behaviour in both:

- `file.replace(".pdf", "")` (pdf-extractor.py:72) drops every occurrence of
  `.pdf`. But line 82 reopens `base + ".pdf"`, so the script evidently means to
  strip only the suffix, and to get back the file it selected. For a file
  `a.pdf.pdf` the base is `a`, and `extract` opens `a.pdf` instead. More
  generally, whenever the stem already contains `.pdf`, the reopened path is
  not the selected one (`Scanner.BaseNameDropsInnerExtensionGeneral`,
  `Extractor.ExtractOpensOtherFile`). When `.pdf` occurs only as the suffix,
  the base plus `.pdf` is the selected file again
  (`Extractor.ExtractReopensSelectedFile`).
- The comment at pdf-extractor.py:76 says that `extract` returns a boolean
  telling whether the extraction succeeded. Line 106 prints
  "extraction failed!" on `False`. In the code, the `except` branch
  re-raises (line 99), so `return False` (line 100) can never be reached, and
  the first failure ends the run. `Outcome` therefore has no "failed but
  returned" case.

## Model

| member | source | states |
|---|---|---|
| Text.IsDigit | pdf-extractor.py:53 | `char.isdigit()` on ASCII: defined by its body; meaning in `Text.ContainsNumber` |
| Text.ContainsNumber | pdf-extractor.py:52-53 | true exactly when some character of the string is a digit |
| Text.EndsWith | pdf-extractor.py:69 | `str.endswith(suffix)`: defined by its body; used by `Scanner.Selected`, meaning in `Scanner.CandidateSourceIsDigitFree` |
| Text.RemoveAll | pdf-extractor.py:72 | `replace(pat, "")` never lengthens the text and only keeps characters of the original |
| Text.RemoveAllShrinks | pdf-extractor.py:72 | an occurrence of the pattern anywhere in the text is removed: the result is shorter by at least the pattern's length |
| Text.RemoveAllShrinksTwice | pdf-extractor.py:72 | two non-overlapping occurrences are both removed: the result is shorter by at least twice the pattern's length |
| Text.RemoveAllKeepsDigitFree | pdf-extractor.py:69-72 | the base of a digit-free file name is digit-free |
| Text.RemoveAllAbsent | pdf-extractor.py:72 | a name without `.pdf` anywhere is left unchanged by the replace |
| Text.RemoveAllSuffixOnly | pdf-extractor.py:72 | when the pattern occurs only as the suffix, removing it gives back the stem |
| Text.NatToString | pdf-extractor.py:92 | the page-number text is non-empty and made only of digits |
| Text.NatToStringNoLeadingZero | pdf-extractor.py:92 | the text of a positive page number does not start with `0`, so it is the canonical decimal form |
| Text.ParseNatToString | pdf-extractor.py:92 | reading the decimal page-number text back gives the number |
| Text.NatToStringInjective | pdf-extractor.py:92 | different page numbers have different texts |
| Scanner.BuildIgnoreList | pdf-extractor.py:62-66 | the first loop, with its early break, builds exactly `IgnoredRoots(walk, force)` |
| Scanner.BuildCandidates | pdf-extractor.py:67-73 | the second loop builds exactly `Candidates(walk, ignore)` |
| Scanner.Scan | pdf-extractor.py:59-73 | both passes run over the same snapshot; the second uses the first's ignore list |
| Scanner.IgnoredRootsMembership | pdf-extractor.py:62-66 | a root is ignored exactly when `force` is unset and a directory with that root holds a digit-bearing file name |
| Scanner.ForceIgnoresNothing | pdf-extractor.py:64-65 | with `force` set the ignore list is empty |
| Scanner.BaseName | pdf-extractor.py:72 | `file.replace(".pdf", "")`, which drops every `.pdf`: defined by its body; meaning in `Scanner.BaseNameRestoresFile` and `Scanner.BaseNameDropsInnerExtensionGeneral` |
| Scanner.Selected | pdf-extractor.py:69 | the three-part test: ends in `.pdf`, holds no digit, directory not ignored; defined by its body; meaning in `Scanner.CandidatesMembership` |
| Scanner.DirCandidatesMembership | pdf-extractor.py:68-73 | a directory's candidates are exactly its selected files, each with every `.pdf` removed |
| Scanner.CandidatesMembership | pdf-extractor.py:67-73 | a pair is a candidate exactly when some walk entry in that root has a file that ends in `.pdf`, has no digit, is not in an ignored root, and has that base |
| Scanner.DirCandidatesAppend | pdf-extractor.py:68-73 | within a directory the candidates follow the file-list order |
| Scanner.CandidatesAppend | pdf-extractor.py:67-73 | across directories the candidates follow the walk order |
| Scanner.CandidatesOfOneDir | pdf-extractor.py:67-73 | one directory contributes exactly its own candidates |
| Scanner.CandidateRootIsWalked | pdf-extractor.py:67-73 | every candidate's root is the root of some directory of the walk |
| Scanner.CandidateDirectoryIsClean | pdf-extractor.py:64-69 | without `force`, no candidate comes from an ignored root, and every directory sharing a candidate's root has only digit-free names |
| Scanner.CandidateSourceIsDigitFree | pdf-extractor.py:69-72 | with or without `force`, a candidate's file ends in `.pdf` and has no digit, and neither does its base |
| Scanner.ForcedScanSelectsEveryPdf | pdf-extractor.py:64-73 | with `force` set, every digit-free `.pdf` file of the walk is a candidate |
| Scanner.BaseNameRestoresFile | pdf-extractor.py:72 | if `.pdf` occurs only as the suffix, base plus `.pdf` is the original name |
| Scanner.BaseNameDropsInnerExtension | pdf-extractor.py:72 | `a.pdf.pdf` has base `a`, so base plus `.pdf` is not the original name |
| Scanner.BaseNameDropsInnerExtensionGeneral | pdf-extractor.py:72 | for any stem that already contains `.pdf`, base plus `.pdf` is not the original `stem + ".pdf"` |
| Extractor.Join | pdf-extractor.py:82-92 | `os.path.join(dir, name)` for a relative name: defined by its body, `dir + "/" + name` |
| Extractor.SourcePath | pdf-extractor.py:82 | the file `extract` reopens, `join(root, base + ".pdf")`: defined by its body; meaning in `Extractor.ExtractReopensSelectedFile` and `Extractor.ExtractOpensOtherFile` |
| Extractor.OutputName | pdf-extractor.py:92 | the output name `<base>_<i+1>.pdf` of 0-based page `i`: defined by its body; meaning in `Extractor.OutputNameContainsNumber`, `Extractor.OutputNamesDistinct` and `Extractor.OutputIsNotSource` |
| Extractor.FirstBlocked | pdf-extractor.py:89-92 | gives the first page whose output cannot be opened, with every earlier output openable, or the page count when every output can be opened |
| Extractor.Extract | pdf-extractor.py:77-100 | the page loop yields `ExtractEffect`: its outcome, and the log extended by exactly the files it writes |
| Extractor.PageLoopEffectMeaning | pdf-extractor.py:89-97 | the page loop over `N` pages raises at the first blocked output after writing exactly the earlier pages, or writes all `N` pages and succeeds |
| Extractor.ExtractEffectMeaning | pdf-extractor.py:82-97 | success holds exactly when the source is readable and every output can be opened; then page `i` goes to output `i` for all pages; an unreadable source raises with nothing written; a blocked output `k` raises after pages `0..k-1` |
| Extractor.OutputNameContainsNumber | pdf-extractor.py:92 | every output file name contains a digit |
| Extractor.OutputNamesDistinct | pdf-extractor.py:89-92 | different pages of one source go to different paths |
| Extractor.OutputIsNotSource | pdf-extractor.py:82-92 | no output path is the source path |
| Extractor.PageWritesContain | pdf-extractor.py:89-95 | for every page `i < N`, the writes for `N` pages include page `i` at its numbered output |
| Extractor.PageWritesMeaning | pdf-extractor.py:89-95 | for `N` pages there are `N` writes; write `i` holds page `i` at `<root>/<base>_<i+1>.pdf`; all paths differ; none is the source; every name has a digit |
| Extractor.ExtractReopensSelectedFile | pdf-extractor.py:72-82 | for a file whose only `.pdf` is its suffix, `extract` opens the file the scan selected |
| Extractor.ExtractOpensOtherFileForDoubleExtension | pdf-extractor.py:72-82 | for the selected file `a.pdf.pdf`, `extract` opens `a.pdf` |
| Extractor.ExtractOpensOtherFile | pdf-extractor.py:72-82 | for any selected file whose stem already contains `.pdf`, `extract` opens a path other than the selected file |
| Driver.RaisedIsFinal | pdf-extractor.py:98-106 | once a candidate raises, the later candidates change neither the outcome nor the writes |
| Driver.RunStep | pdf-extractor.py:104-106 | after a successful prefix, the next candidate's outcome becomes the run's, and its writes are appended |
| Driver.ExtractAll | pdf-extractor.py:104-106 | the loop over candidates yields `RunEffect`: the run's outcome, and the log extended by everything written |
| Driver.Run | pdf-extractor.py:59-106 | the script's effect is `RunEffect` of the scanned candidates |
| Driver.RunSucceedsIff | pdf-extractor.py:104-106 | the run completes exactly when every candidate's extraction succeeds |
| Driver.RunStopsAtFirstFailure | pdf-extractor.py:98-106 | at the first failing candidate the run raises; it keeps the earlier writes plus the failing one's partial writes and never reaches later candidates |
| Driver.RunWritesPage | pdf-extractor.py:89-106 | after a completed run, a given page of a given candidate was written to its numbered output |
| Driver.RunWritesEveryPage | pdf-extractor.py:89-106 | after a completed run, every page of every candidate was written to its numbered output |
| Driver.ExtractWritesNumbered | pdf-extractor.py:89-92 | every file one extraction writes has a digit in its name and lies in the candidate's directory |
| Driver.RunWritesNumbered | pdf-extractor.py:89-106 | every file a run writes has a digit in its name and lies in some candidate's directory |
| Driver.SecondScanSkipsSplitDirectory | pdf-extractor.py:62-73 | without `force`, a directory holding any output name is ignored and yields no candidate |
| Driver.RewalkListsWrite | pdf-extractor.py:62-63 | the second walk lists, in each directory, every name the first run wrote there |
| Driver.WrittenDirectoryYieldsNothing | pdf-extractor.py:62-73 | without `force`, no candidate of the second scan lies in a directory that received a numbered file |
| Driver.SecondRunSkipsWrittenDirectories | pdf-extractor.py:59-106 | without `force`, a second scan after the first run's outputs are listed yields no candidate in any directory the first run wrote to |

## Left out

- Argument parsing and the global `args` (pdf-extractor.py:41-49). `force` is a parameter.
- `verbose` and all printing: the banners, the per-file start and result lines, and the verbose per-page line. That line prints `pdf.pages` where the page count was meant. This is output only.
- PyPDF2 parsing and writing. A document is known only by its page count. A write records the source page index, not bytes.
- Kinds of errors. A missing file, an unreadable document and an unopenable output all become `Raised(path)`. A failure inside `PdfWriter.write`, after the output was opened, is not modelled. Such a failure would leave a partial file.
- Real `os.walk`: its traversal order, subdirectory lists and symlinks. The walk is a given snapshot of `(root, files)` entries. `os.path.join` becomes `dir + "/" + name`, without its rules for absolute names or trailing separators.
- Python's Unicode `str.isdigit`. Only the ASCII digits `0`-`9` count as digits.
- `Extract` reads the page counts from a fixed `FileSystem` value, so a run's own writes never change what a later candidate reads. Outputs have a digit in their names and sources do not, so the two cannot share a name within a directory.
- `Driver.SecondRunSkipsWrittenDirectories` models the second walk only as the first walk plus the names written into each directory. Files created or removed outside the run are not modelled.
