/**
  `extract_dates_per_page` and `prepare_files_for_processing`: a PDF whose
  pages carry more than one trading date is cut into one file per run of
  pages (see module Grouping), written under the temporary directory with a
  name derived from the original file name and the run's date; a PDF with
  at most one date is passed through.

  A PDF is its sequence of page texts and the file system a map from path
  to PDF: reading, writing and creating directories are not modelled
  beyond that map.
*/
module Splitter {
  import opened Wrappers
  import opened Text
  import opened Patterns
  import opened Grouping

  /** The text of each page of a PDF (`page.extract_text() or ""`). */
  type Pdf = seq<string>

  /** The files the pipeline reads and writes, by path. */
  type Disk = map<string, Pdf>

  /** The directory the split files are written to. */
  const TempDir: string := "split_by_date_temp"

  /** The page-date patterns, tried in order: a labelled trading date first, then any date. */
  const PageDatePatterns: seq<string> := [
    "Data\\s+Preg[a\U{E3}]o\\s*(?:\\n|\\r|\\s)*(\\d{2}/\\d{2}/\\d{4})",
    "(\\d{2}/\\d{2}/\\d{4})"
  ]

  // ---------------------------------------------------------------------------
  // extract_dates_per_page

  /** The date found on one page: group 1 of the first page-date pattern that matches, case-insensitively. */
  function PageDate(search: Search, page: string): (r: Option<string>)
    ensures search(PageDatePatterns[0], IgnoreCase, page).Some? ==> r == search(PageDatePatterns[0], IgnoreCase, page)
    ensures search(PageDatePatterns[0], IgnoreCase, page).None? ==> r == search(PageDatePatterns[1], IgnoreCase, page)
  {
    assert IsFirstMatching(search, PageDatePatterns, IgnoreCase, page, 0) || search(PageDatePatterns[0], IgnoreCase, page).None?;
    assert search(PageDatePatterns[0], IgnoreCase, page).None? && search(PageDatePatterns[1], IgnoreCase, page).Some?
      ==> IsFirstMatching(search, PageDatePatterns, IgnoreCase, page, 1);
    FirstCapture(search, PageDatePatterns, IgnoreCase, page)
  }

  /** One entry per page, in page order. */
  function PageDates(search: Search, pdf: Pdf): seq<Option<string>>
  {
    seq(|pdf|, i requires 0 <= i < |pdf| => PageDate(search, pdf[i]))
  }

  /** `set(d for d in dates if d)`: the dates that were found and are not empty. */
  function DistinctDates(dates: seq<Option<string>>): set<string> {
    set i | 0 <= i < |dates| && dates[i].Some? && dates[i].value != "" :: dates[i].value
  }

  // ---------------------------------------------------------------------------
  // File names (POSIX paths)

  /** `os.path.basename(p)`: what follows the last '/'. */
  function Basename(p: string): (r: string)
    ensures |r| <= |p| && r == p[|p| - |r|..]
    ensures forall k :: 0 <= k < |r| ==> r[k] != '/'
    ensures |r| < |p| ==> p[|p| - |r| - 1] == '/'
    decreases |p|
  {
    if p == [] || p[|p| - 1] == '/' then []
    else Basename(p[..|p| - 1]) + [p[|p| - 1]]
  }

  ghost predicate AllDots(s: string) {
    forall k :: 0 <= k < |s| ==> s[k] == '.'
  }

  ghost predicate NoDot(s: string) {
    forall k :: 0 <= k < |s| ==> s[k] != '.'
  }

  /** The position of the last '.', if any. */
  function LastDot(s: string): (r: Option<nat>)
    ensures r.Some? ==> r.value < |s| && s[r.value] == '.' && NoDot(s[r.value + 1..])
    ensures r.None? ==> NoDot(s)
    decreases |s|
  {
    if s == [] then None
    else if s[|s| - 1] == '.' then Some(|s| - 1)
    else
      var r := LastDot(s[..|s| - 1]);
      if r.Some? then
        assert s[r.value + 1..] == s[..|s| - 1][r.value + 1..] + [s[|s| - 1]];
        r
      else
        r
  }

  function OnlyDots(s: string): (b: bool)
    ensures b <==> AllDots(s)
    decreases |s|
  {
    s == [] || (s[0] == '.' && OnlyDots(s[1..]))
  }

  /**
    `os.path.splitext(name)[0]` for a name without '/': the name without
    its extension, the extension being the last '.' and what follows,
    unless only dots precede that '.' (as in ".profile").
  */
  function Stem(name: string): (r: string)
    ensures r <= name
    ensures |r| < |name| ==> name[|r|] == '.' && NoDot(name[|r| + 1..]) && !AllDots(r)
    ensures |r| == |name| ==> NoDot(name) || AllDots(name[..LastDot(name).value])
  {
    match LastDot(name)
    case None => name
    case Some(i) => if OnlyDots(name[..i]) then name else name[..i]
  }

  /** The file name of the part holding the pages dated `date`. */
  function SplitFileName(path: string, date: string): string {
    Stem(Basename(path)) + "_" + ReplaceChar(date, '/', '-') + ".pdf"
  }

  /** `os.path.join(a, b)` on POSIX. */
  function PosixJoin(a: string, b: string): string {
    if b != [] && b[0] == '/' then b
    else if a == [] || a[|a| - 1] == '/' then a + b
    else a + "/" + b
  }

  function OutputPath(path: string, date: string): string {
    PosixJoin(TempDir, SplitFileName(path, date))
  }

  /** Split files always land directly inside the temporary directory. */
  lemma OutputPathInTempDir(path: string, date: string)
    ensures OutputPath(path, date) == TempDir + "/" + SplitFileName(path, date)
  {
    var n := SplitFileName(path, date);
    var stem := Stem(Basename(path));
    if stem != [] {
      assert n[0] == stem[0] == Basename(path)[0];
    } else {
      assert n[0] == '_';
    }
  }

  /** The date part of a name determines the date, for dates without '-' (such as dd/mm/yyyy). */
  lemma SplitFileNameInjective(path: string, d1: string, d2: string)
    requires forall k :: 0 <= k < |d1| ==> d1[k] != '-'
    requires forall k :: 0 <= k < |d2| ==> d2[k] != '-'
    requires SplitFileName(path, d1) == SplitFileName(path, d2)
    ensures d1 == d2
  {
    var stem := Stem(Basename(path)) + "_";
    var r1 := ReplaceChar(d1, '/', '-');
    var r2 := ReplaceChar(d2, '/', '-');
    assert stem + r1 + ".pdf" == stem + r2 + ".pdf";
    assert |r1| == |r2|;
    assert r1 == (stem + r1 + ".pdf")[|stem|..|stem| + |r1|];
    assert r2 == (stem + r2 + ".pdf")[|stem|..|stem| + |r2|];
    forall k | 0 <= k < |d1| ensures d1[k] == d2[k] {
      assert r1[k] == r2[k];
    }
  }

  /** The base name of a path is what follows its last '/'. */
  lemma {:induction false} BasenameAfterSlash(dir: string, name: string)
    requires forall k :: 0 <= k < |name| ==> name[k] != '/'
    ensures Basename(dir + "/" + name) == name
    decreases |name|
  {
    var p := dir + "/" + name;
    if name == [] {
      assert p[|p| - 1] == '/';
    } else {
      var init := name[..|name| - 1];
      assert p[..|p| - 1] == dir + "/" + init;
      BasenameAfterSlash(dir, init);
      assert init + [name[|name| - 1]] == name;
    }
  }

  /** The last '.' is the one before an extension without dots. */
  lemma {:induction false} LastDotBeforeExtension(stem: string, ext: string)
    requires NoDot(ext)
    ensures LastDot(stem + "." + ext) == Some(|stem|)
    decreases |ext|
  {
    var s := stem + "." + ext;
    if ext != [] {
      var init := ext[..|ext| - 1];
      assert s[..|s| - 1] == stem + "." + init;
      LastDotBeforeExtension(stem, init);
    }
  }

  /** A stem with a character other than '.' loses its extension. */
  lemma StemOfExtension(stem: string, ext: string)
    requires NoDot(ext) && !AllDots(stem)
    ensures Stem(stem + "." + ext) == stem
  {
    LastDotBeforeExtension(stem, ext);
    assert (stem + "." + ext)[..|stem|] == stem;
  }

  /** The dated file "notas/nota.pdf" keeps its stem "nota". */
  lemma StemOfNota()
    ensures Stem(Basename("notas/nota.pdf")) == "nota"
  {
    assert "notas" + "/" + "nota.pdf" == "notas/nota.pdf";
    BasenameAfterSlash("notas", "nota.pdf");
    assert "nota" + "." + "pdf" == "nota.pdf";
    assert "nota"[0] != '.';
    assert NoDot("pdf") by {
      assert "pdf"[0] != '.' && "pdf"[1] != '.' && "pdf"[2] != '.';
    }
    StemOfExtension("nota", "pdf");
  }

  // ---------------------------------------------------------------------------
  // The split plan of one file

  /** One output file: where it is written and the pages it holds. */
  datatype Part = Part(path: string, pdf: Pdf)

  datatype FilePlan = PassThrough | Split(parts: seq<Part>)

  /** The pages at the given indices, in that order. */
  function Select(pdf: Pdf, ix: seq<nat>): Pdf
    requires forall m :: 0 <= m < |ix| ==> ix[m] < |pdf|
  {
    seq(|ix|, m requires 0 <= m < |ix| => pdf[ix[m]])
  }

  /** One part per run, in run order. */
  function PartsOf(path: string, pdf: Pdf, runs: seq<Group>): seq<Part>
    requires forall k, m :: 0 <= k < |runs| && 0 <= m < |runs[k].pages| ==> runs[k].pages[m] < |pdf|
  {
    seq(|runs|, k requires 0 <= k < |runs| => Part(OutputPath(path, runs[k].date), Select(pdf, runs[k].pages)))
  }

  /** What becomes of one file: passed through with at most one distinct date, else cut into its runs. */
  function PlanFile(search: Search, path: string, pdf: Pdf): FilePlan {
    var dates := PageDates(search, pdf);
    if |DistinctDates(dates)| <= 1 then PassThrough
    else
      RunsAreDateGrouping(dates);
      Split(PartsOf(path, pdf, Runs(dates)))
  }

  /** A set has at most one element exactly when any two of its elements are equal. */
  lemma AtMostOne<T>(s: set<T>)
    ensures |s| <= 1 <==> forall a, b :: a in s && b in s ==> a == b
  {
    if |s| >= 2 {
      var a :| a in s;
      assert |s - {a}| == |s| - 1;
      var b :| b in s - {a};
      assert a != b;
    }
    if a, b :| a in s && b in s && a != b {
      assert |s - {a}| == |s| - 1;
      assert b in s - {a};
    }
  }

  /**
    A file is passed through exactly when no two of its pages carry
    different non-empty dates.
  */
  lemma PassThroughIffOneDate(search: Search, path: string, pdf: Pdf)
    ensures PlanFile(search, path, pdf).PassThrough? <==>
      forall i, j :: 0 <= i < |pdf| && 0 <= j < |pdf|
        && PageDate(search, pdf[i]).Some? && PageDate(search, pdf[i]).value != ""
        && PageDate(search, pdf[j]).Some? && PageDate(search, pdf[j]).value != ""
        ==> PageDate(search, pdf[i]) == PageDate(search, pdf[j])
  {
    var dates := PageDates(search, pdf);
    AtMostOne(DistinctDates(dates));
    forall i, j | 0 <= i < |pdf| && 0 <= j < |pdf|
        && PageDate(search, pdf[i]).Some? && PageDate(search, pdf[i]).value != ""
        && PageDate(search, pdf[j]).Some? && PageDate(search, pdf[j]).value != ""
      ensures dates[i].value in DistinctDates(dates) && dates[j].value in DistinctDates(dates)
    {
    }
  }

  /** A page carrying a date lies in some run. */
  lemma {:induction false} InSomeRun(gs: seq<Group>, x: nat) returns (k: nat, m: nat)
    requires x in Flatten(gs)
    ensures k < |gs| && m < |gs[k].pages| && gs[k].pages[m] == x
    decreases |gs|
  {
    var init := gs[..|gs| - 1];
    if x in Flatten(init) {
      k, m := InSomeRun(init, x);
    } else {
      k := |gs| - 1;
      var last := gs[k].pages;
      assert x in Flatten(init) + last;
      m :| 0 <= m < |last| && last[m] == x;
    }
  }

  /** Two different non-empty dates give at least two runs. */
  lemma TwoDatesTwoRuns(dates: seq<Option<string>>)
    requires |DistinctDates(dates)| >= 2
    ensures |Runs(dates)| >= 2
  {
    AtMostOne(DistinctDates(dates));
    var a, b :| a in DistinctDates(dates) && b in DistinctDates(dates) && a != b;
    var i :| 0 <= i < |dates| && dates[i].Some? && dates[i].value != "" && dates[i].value == a;
    var j :| 0 <= j < |dates| && dates[j].Some? && dates[j].value != "" && dates[j].value == b;
    var gs := Runs(dates);
    RunsAreDateGrouping(dates);
    DatedIndicesExact(dates);
    var ki, mi := InSomeRun(gs, i);
    var kj, mj := InSomeRun(gs, j);
    assert ki != kj;
  }

  /**
    A file with several dates is cut into one part per run, at least two, in
    run order: part `k` is written to the name derived from run `k`'s date
    and holds exactly that run's pages, each of which carries that date.
  */
  lemma SplitFollowsRuns(search: Search, path: string, pdf: Pdf)
    requires PlanFile(search, path, pdf).Split?
    ensures var runs := Runs(PageDates(search, pdf));
      var parts := PlanFile(search, path, pdf).parts;
      && |parts| == |runs| >= 2
      && forall k :: 0 <= k < |runs| ==>
        && parts[k].path == OutputPath(path, runs[k].date)
        && |parts[k].pdf| == |runs[k].pages|
        && forall m :: 0 <= m < |runs[k].pages| ==>
             runs[k].pages[m] < |pdf|
             && parts[k].pdf[m] == pdf[runs[k].pages[m]]
             && PageDate(search, parts[k].pdf[m]) == Some(runs[k].date)
  {
    var dates := PageDates(search, pdf);
    var runs := Runs(dates);
    RunsAreDateGrouping(dates);
    TwoDatesTwoRuns(dates);
    var parts := PartsOf(path, pdf, runs);
    assert PlanFile(search, path, pdf).parts == parts;
    forall k | 0 <= k < |runs|
      ensures forall m :: 0 <= m < |runs[k].pages| ==>
        && runs[k].pages[m] < |pdf|
        && parts[k].pdf[m] == pdf[runs[k].pages[m]]
        && PageDate(search, parts[k].pdf[m]) == Some(runs[k].date)
    {
      RunPagesCarryDate(search, pdf, runs, k);
    }
  }

  lemma RunPagesCarryDate(search: Search, pdf: Pdf, runs: seq<Group>, k: nat)
    requires k < |runs| && PagesCarryDate(PageDates(search, pdf), runs)
    ensures forall m :: 0 <= m < |runs[k].pages| ==>
      runs[k].pages[m] < |pdf| && PageDate(search, pdf[runs[k].pages[m]]) == Some(runs[k].date)
  {
    var dates := PageDates(search, pdf);
    forall m | 0 <= m < |runs[k].pages|
      ensures runs[k].pages[m] < |pdf| && PageDate(search, pdf[runs[k].pages[m]]) == Some(runs[k].date)
    {
      assert dates[runs[k].pages[m]] == Some(runs[k].date);
    }
  }

  /**
    A date that comes back after another date makes two parts with the same
    output path: the later part overwrites the earlier one on disk.
  */
  lemma RecurringDateCollides(search: Search, path: string, pdf: Pdf, a: string, b: string)
    requires PageDates(search, pdf) == [Some(a), Some(b), Some(a)]
    requires a != b && a != "" && b != ""
    ensures PlanFile(search, path, pdf).Split?
    ensures var parts := PlanFile(search, path, pdf).parts;
      |parts| == 3 && parts[0].path == parts[2].path && parts[0].pdf == [pdf[0]] && parts[2].pdf == [pdf[2]]
  {
    var dates := PageDates(search, pdf);
    assert dates[0].Some? && dates[0].value == a && dates[1].Some? && dates[1].value == b;
    assert a in DistinctDates(dates) && b in DistinctDates(dates);
    AtMostOne(DistinctDates(dates));
    RecurringDateSplits(a, b);
  }

  // ---------------------------------------------------------------------------
  // prepare_files_for_processing

  /** The paths of the parts, in order. */
  function PartPaths(parts: seq<Part>): seq<string>
  {
    seq(|parts|, k requires 0 <= k < |parts| => parts[k].path)
  }

  /** The disk after writing the parts one after the other. */
  function WriteParts(disk: Disk, parts: seq<Part>): (d: Disk)
    ensures disk.Keys <= d.Keys
    ensures forall k :: 0 <= k < |parts| ==> parts[k].path in d
    decreases |parts|
  {
    if parts == [] then disk
    else
      var last := parts[|parts| - 1];
      WriteParts(disk, parts[..|parts| - 1])[last.path := last.pdf]
  }

  /** A part that no later part overwrites is on disk as written. */
  lemma {:induction false} WrittenPartSurvives(disk: Disk, parts: seq<Part>, k: nat)
    requires k < |parts|
    requires forall j :: k < j < |parts| ==> parts[j].path != parts[k].path
    ensures WriteParts(disk, parts)[parts[k].path] == parts[k].pdf
    decreases |parts|
  {
    if k < |parts| - 1 {
      var init := parts[..|parts| - 1];
      forall j | k < j < |init| ensures init[j].path != init[k].path {
        assert init[j] == parts[j];
      }
      WrittenPartSurvives(disk, init, k);
    }
  }

  /**
    The paths to process and the disk after preparing `files` in order: a
    passed-through file contributes its own path, a split file the paths of
    its parts, which are written to disk.
  */
  function Prepared(search: Search, files: seq<string>, disk: Disk): (r: (seq<string>, Disk))
    requires forall k :: 0 <= k < |files| ==> files[k] in disk
    ensures disk.Keys <= r.1.Keys
    decreases |files|
  {
    if files == [] then ([], disk)
    else
      var prev := Prepared(search, files[..|files| - 1], disk);
      var f := files[|files| - 1];
      match PlanFile(search, f, prev.1[f])
      case PassThrough => (prev.0 + [f], prev.1)
      case Split(parts) => (prev.0 + PartPaths(parts), WriteParts(prev.1, parts))
  }

  /** Every path handed on to processing is on the prepared disk, so each one can be opened. */
  lemma {:induction false} PreparedOnDisk(search: Search, files: seq<string>, disk: Disk)
    requires forall k :: 0 <= k < |files| ==> files[k] in disk
    ensures forall p :: p in Prepared(search, files, disk).0 ==> p in Prepared(search, files, disk).1
    decreases |files|
  {
    if files != [] {
      var init := files[..|files| - 1];
      assert forall k :: 0 <= k < |init| ==> init[k] == files[k];
      PreparedOnDisk(search, init, disk);
      var prev := Prepared(search, init, disk);
      var f := files[|files| - 1];
      match PlanFile(search, f, prev.1[f])
      case PassThrough =>
      case Split(parts) =>
        var d := WriteParts(prev.1, parts);
        forall p | p in prev.0 + PartPaths(parts) ensures p in d {
          if p !in prev.0 {
            var k :| 0 <= k < |parts| && PartPaths(parts)[k] == p;
          }
        }
    }
  }

  /** Writing one more part, and listing its path. */
  lemma WritePartsSnoc(disk: Disk, parts: seq<Part>, k: nat)
    requires k < |parts|
    ensures WriteParts(disk, parts[..k + 1]) == WriteParts(disk, parts[..k])[parts[k].path := parts[k].pdf]
    ensures PartPaths(parts[..k + 1]) == PartPaths(parts[..k]) + [parts[k].path]
  {
    assert parts[..k + 1][..k] == parts[..k];
  }

  /** The pages a part is made of, added one at a time (`writer.add_page`). */
  method SelectPages(pdf: Pdf, ix: seq<nat>) returns (pages: Pdf)
    requires forall m :: 0 <= m < |ix| ==> ix[m] < |pdf|
    ensures pages == Select(pdf, ix)
  {
    pages := [];
    for m := 0 to |ix|
      invariant pages == Select(pdf, ix[..m])
    {
      pages := pages + [pdf[ix[m]]];
    }
    assert ix[..|ix|] == ix;
  }

  /** The loop writing the parts of one file. */
  method WriteRuns(path: string, pdf: Pdf, groups: seq<Group>, disk: Disk) returns (written: seq<string>, disk': Disk)
    requires forall k, m :: 0 <= k < |groups| && 0 <= m < |groups[k].pages| ==> groups[k].pages[m] < |pdf|
    ensures written == PartPaths(PartsOf(path, pdf, groups))
    ensures disk' == WriteParts(disk, PartsOf(path, pdf, groups))
  {
    written := [];
    disk' := disk;
    ghost var parts := PartsOf(path, pdf, groups);
    for k := 0 to |groups|
      invariant written == PartPaths(parts[..k])
      invariant disk' == WriteParts(disk, parts[..k])
    {
      var pages := SelectPages(pdf, groups[k].pages);
      var outPath := PosixJoin(TempDir, SplitFileName(path, groups[k].date));
      assert parts[k] == Part(outPath, pages);
      WritePartsSnoc(disk, parts, k);
      disk' := disk'[outPath := pages];
      written := written + [outPath];
    }
    assert parts[..|groups|] == parts;
  }

  /**
    `prepare_files_for_processing(files)`: the paths to process, in order,
    with the split parts written to the temporary directory.
  */
  method PrepareFilesForProcessing(search: Search, files: seq<string>, disk: Disk)
    returns (toProcess: seq<string>, disk': Disk)
    requires forall k :: 0 <= k < |files| ==> files[k] in disk
    ensures (toProcess, disk') == Prepared(search, files, disk)
  {
    toProcess := [];
    disk' := disk;
    for i := 0 to |files|
      invariant (toProcess, disk') == Prepared(search, files[..i], disk)
    {
      assert files[..i + 1][..i] == files[..i];
      var path := files[i];
      var pdf := disk'[path];
      var dates := PageDates(search, pdf);
      if |DistinctDates(dates)| <= 1 {
        toProcess := toProcess + [path];
      } else {
        var groups := GroupPagesByDate(dates);
        var written;
        written, disk' := WriteRuns(path, pdf, groups, disk');
        toProcess := toProcess + written;
      }
    }
    assert files[..|files|] == files;
  }
}
