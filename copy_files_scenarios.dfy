/**
  Concrete walks over a study directory that holds one bottom directory `series`
  with the two image files `n1` and `n2`, whose series descriptions are `first`
  and `second`. The source root is the study directory itself.
 */
module CopyFilesScenarios {
  import opened Options
  import opened Paths
  import opened DicomNames
  import opened FileTree
  import opened FileTreeWalk
  import opened CopyFiles
  import opened CopyFilesWalk

  /** The study tree found at the source root `root`; the study directory bears the root's name. */
  function StudyTree(root: Path, series: string, n1: string, first: string, n2: string, second: string): Node
  {
    Dir(FileName(root), [Dir(series, [File(n1, Some(first)), File(n2, Some(second))])])
  }

  /**
    A configuration under which the study root is admitted by its own name, as a
    structural directory, and `series` is a bottom directory.
   */
  predicate StudyConfig(cf: Config, series: string)
  {
    && cf.matches(FileName(cf.source), FileName(cf.source))
    && !IsBottomDicomDir(cf, FileName(cf.source))
    && IsBottomDicomDir(cf, series)
  }

  /** Names as the scanner writes them match the image file expression; "i1.dcm" does not. */
  lemma ImageFileNamesMatch()
    ensures MatchesDicomFileRegex("i1.MRDC.1") && MatchesDicomFileRegex("i2.MRDC.2")
    ensures !MatchesDicomFileRegex("i1.dcm")
  {
    assert SpelledAsDicomFileName("i1.MRDC.1", "1", "1");
    assert SpelledAsDicomFileName("i2.MRDC.2", "2", "2");
    DicomFileRegexMeaning("i1.MRDC.1");
    DicomFileRegexMeaning("i2.MRDC.2");
    StartingWithIIsNotEnough();
  }

  /** Walking an image file below the source root copies it to its mirror and goes on. */
  lemma ImageFileWalk(cf: Config, outcome: Path -> CopyOutcome, dir: Path, f: Node)
    requires cf.source <= dir && f.File? && MatchesDicomFileRegex(f.name)
    ensures
      var path := dir + [f.name];
      WalkNode(CopyFilesVisitor(cf, outcome), f, path)
        == Walked([CopyAction(path, cf.target + path[|cf.source|..])], Proceed)
  {
    var path := dir + [f.name];
    VisitorCallbacks(cf, outcome, path, []);
    TargetKeepsFileName(cf, path);
    TargetOfMirrors(cf, path);
  }

  /** Walking a file whose name is not an image file name copies nothing and goes on. */
  lemma OtherFileWalk(cf: Config, outcome: Path -> CopyOutcome, dir: Path, f: Node)
    requires cf.source <= dir && f.File? && !MatchesDicomFileRegex(f.name)
    ensures WalkNode(CopyFilesVisitor(cf, outcome), f, dir + [f.name]) == Walked([], Proceed)
  {
    var path := dir + [f.name];
    VisitorCallbacks(cf, outcome, path, []);
    TargetKeepsFileName(cf, path);
  }

  /** Walking two image files copies both, in order. */
  lemma ImageFilesWalk(cf: Config, outcome: Path -> CopyOutcome, dir: Path, files: seq<Node>)
    requires cf.source <= dir && |files| == 2
    requires files[0].File? && MatchesDicomFileRegex(files[0].name)
    requires files[1].File? && MatchesDicomFileRegex(files[1].name)
    ensures
      var f0, f1 := dir + [files[0].name], dir + [files[1].name];
      WalkChildren(CopyFilesVisitor(cf, outcome), files, dir).effects ==
        [CopyAction(f0, cf.target + f0[|cf.source|..]), CopyAction(f1, cf.target + f1[|cf.source|..])]
  {
    var v := CopyFilesVisitor(cf, outcome);
    var rest := files[1..];
    assert rest[0] == files[1] && rest[1..] == [];
    ImageFileWalk(cf, outcome, dir, files[0]);
    ImageFileWalk(cf, outcome, dir, rest[0]);
    assert WalkChildren(v, rest[1..], dir) == Walked([], Proceed);
    assert WalkChildren(v, rest, dir).effects == WalkNode(v, rest[0], dir + [rest[0].name]).effects;
  }

  /** Walking a directory that holds one entry: its own step, then the entry's walk if it goes on. */
  lemma SingleEntryDirectoryWalk(cf: Config, outcome: Path -> CopyOutcome, d: Node, p: Path)
    requires d.Dir? && |d.children| == 1
    ensures
      var step := DirectoryStep(cf, p, Some(d.children), outcome(p));
      var c := d.children[0];
      WalkNode(CopyFilesVisitor(cf, outcome), d, p).effects ==
        step.effects
        + (if step.result == Continue then WalkNode(CopyFilesVisitor(cf, outcome), c, p + [c.name]).effects else [])
  {
    var v := CopyFilesVisitor(cf, outcome);
    VisitorCallbacks(cf, outcome, p, d.children);
    var c := d.children[0];
    WalkNeverStops(cf, outcome, c, p + [c.name]);
    assert d.children[1..] == [];
    assert WalkChildren(v, d.children, p).effects == WalkNode(v, c, p + [c.name]).effects;
  }

  /** Walking a directory that holds two entries: its own step, then the entries' walks if it goes on. */
  lemma TwoEntryDirectoryWalk(cf: Config, outcome: Path -> CopyOutcome, d: Node, p: Path)
    requires d.Dir? && |d.children| == 2
    ensures
      var step := DirectoryStep(cf, p, Some(d.children), outcome(p));
      WalkNode(CopyFilesVisitor(cf, outcome), d, p).effects ==
        step.effects
        + (if step.result == Continue then WalkChildren(CopyFilesVisitor(cf, outcome), d.children, p).effects else [])
  {
    VisitorCallbacks(cf, outcome, p, d.children);
    WalkChildrenNeverStop(cf, outcome, d.children, p);
  }

  /** The study root is admitted by its own name and copied to the target root. */
  lemma RootStep(cf: Config, outcome: Path -> CopyOutcome, series: string, children: seq<Node>)
    requires StudyConfig(cf, series)
    requires outcome(cf.source) != OtherIOError
    ensures DirectoryStep(cf, cf.source, Some(children), outcome(cf.source)) == Step(Continue, [CopyAction(cf.source, cf.target)])
  {
    TargetOfMirrors(cf, cf.source);
    assert Admits(cf, FileName(cf.source), Some(children));
    assert cf.source[|cf.source|..] == [] && cf.target + [] == cf.target;
  }

  /** The part of a path below `source`. */
  lemma BelowSource(source: Path, rel: Path)
    ensures (source + rel)[|source|..] == rel
  {
  }

  /** Walking the study root copies it and goes on into its one entry. */
  lemma StudyRootWalk(cf: Config, outcome: Path -> CopyOutcome, seriesDir: Node)
    requires StudyConfig(cf, seriesDir.name) && seriesDir.Dir?
    requires outcome(cf.source) != OtherIOError
    ensures Copies(cf, outcome, Dir(FileName(cf.source), [seriesDir])) ==
      [CopyAction(cf.source, cf.target)] + WalkNode(CopyFilesVisitor(cf, outcome), seriesDir, cf.source + [seriesDir.name]).effects
  {
    var root := Dir(FileName(cf.source), [seriesDir]);
    RootStep(cf, outcome, seriesDir.name, root.children);
    SingleEntryDirectoryWalk(cf, outcome, root, cf.source);
    assert root.children[0] == seriesDir;
  }

  /** Walking a directory below the source root that holds two image files. */
  lemma SeriesWalk(cf: Config, outcome: Path -> CopyOutcome, sp: Path, series: string, files: seq<Node>)
    requires cf.source <= sp && |files| == 2
    requires files[0].File? && MatchesDicomFileRegex(files[0].name)
    requires files[1].File? && MatchesDicomFileRegex(files[1].name)
    ensures
      var step := DirectoryStep(cf, sp, Some(files), outcome(sp));
      var f0, f1 := sp + [files[0].name], sp + [files[1].name];
      WalkNode(CopyFilesVisitor(cf, outcome), Dir(series, files), sp).effects ==
        step.effects
        + (if step.result == Continue then
             [CopyAction(f0, cf.target + f0[|cf.source|..]), CopyAction(f1, cf.target + f1[|cf.source|..])]
           else [])
  {
    TwoEntryDirectoryWalk(cf, outcome, Dir(series, files), sp);
    ImageFilesWalk(cf, outcome, sp, files);
  }

  /** The walk of the study tree, unfolded down to the step on `series`. */
  lemma StudyWalk(cf: Config, outcome: Path -> CopyOutcome, series: string,
                  n1: string, first: string, n2: string, second: string)
    requires StudyConfig(cf, series)
    requires outcome(cf.source) != OtherIOError
    requires MatchesDicomFileRegex(n1) && MatchesDicomFileRegex(n2)
    ensures
      var files := [File(n1, Some(first)), File(n2, Some(second))];
      var seriesStep := DirectoryStep(cf, cf.source + [series], Some(files), outcome(cf.source + [series]));
      Copies(cf, outcome, StudyTree(cf.source, series, n1, first, n2, second)) ==
        [CopyAction(cf.source, cf.target)] + seriesStep.effects
        + (if seriesStep.result == Continue then
             [CopyAction(cf.source + [series, n1], cf.target + [series, n1]),
              CopyAction(cf.source + [series, n2], cf.target + [series, n2])]
           else [])
  {
    var sp := cf.source + [series];
    var files := [File(n1, Some(first)), File(n2, Some(second))];
    StudyRootWalk(cf, outcome, Dir(series, files));
    SeriesWalk(cf, outcome, sp, series, files);
    assert sp + [n1] == cf.source + [series, n1] && sp + [n2] == cf.source + [series, n2];
    BelowSource(cf.source, [series, n1]);
    BelowSource(cf.source, [series, n2]);
  }

  /** The step on `series` when it is admitted: its copy is attempted at its mirror. */
  lemma AdmittedSeriesStep(cf: Config, outcome: Path -> CopyOutcome, series: string, files: seq<Node>)
    requires IsBottomDicomDir(cf, series) && HasRightDicoms(Some(files))
    ensures DirectoryStep(cf, cf.source + [series], Some(files), outcome(cf.source + [series]))
      == Step(CopyFile(outcome(cf.source + [series])), [CopyAction(cf.source + [series], cf.target + [series])])
  {
    TargetOfMirrors(cf, cf.source + [series]);
    BelowSource(cf.source, [series]);
  }

  /**
    The bottom directory is admitted by its first file alone, and then both image
    files are copied, the second whatever its series.
   */
  lemma OneQualifyingFileCopiesBoth(cf: Config, outcome: Path -> CopyOutcome, series: string,
                                    n1: string, first: string, n2: string, second: string)
    requires StudyConfig(cf, series)
    requires outcome(cf.source) != OtherIOError && outcome(cf.source + [series]) != OtherIOError
    requires MatchesDicomFileRegex(n1) && MatchesDicomFileRegex(n2)
    requires IsRightSeries(first)
    ensures Copies(cf, outcome, StudyTree(cf.source, series, n1, first, n2, second)) == [
      CopyAction(cf.source, cf.target),
      CopyAction(cf.source + [series], cf.target + [series]),
      CopyAction(cf.source + [series, n1], cf.target + [series, n1]),
      CopyAction(cf.source + [series, n2], cf.target + [series, n2])]
  {
    var files := [File(n1, Some(first)), File(n2, Some(second))];
    StudyWalk(cf, outcome, series, n1, first, n2, second);
    DicomFileNameStartsWithI(n1);
    assert Qualifies(files[0]);
    AdmittedSeriesStep(cf, outcome, series, files);
  }

  /** Without a qualifying file the bottom directory and everything in it are left out. */
  lemma NoQualifyingFileCopiesNothingBelowStudy(cf: Config, outcome: Path -> CopyOutcome, series: string,
                                                n1: string, first: string, n2: string, second: string)
    requires StudyConfig(cf, series)
    requires outcome(cf.source) != OtherIOError
    requires MatchesDicomFileRegex(n1) && MatchesDicomFileRegex(n2)
    requires !IsRightSeries(first) && !IsRightSeries(second)
    ensures Copies(cf, outcome, StudyTree(cf.source, series, n1, first, n2, second)) == [CopyAction(cf.source, cf.target)]
  {
    var files := [File(n1, Some(first)), File(n2, Some(second))];
    StudyWalk(cf, outcome, series, n1, first, n2, second);
    assert !HasRightDicoms(Some(files)) by {
      forall j | 0 <= j < |files|
        ensures !Qualifies(files[j])
      {
        assert j == 0 || j == 1;
      }
    }
  }

  /**
    When copying the admitted bottom directory fails, `copyFile` skips its subtree:
    the directory's copy is attempted but none of its files is.
   */
  lemma FailedSeriesCopySkipsItsFiles(cf: Config, outcome: Path -> CopyOutcome, series: string,
                                      n1: string, first: string, n2: string, second: string)
    requires StudyConfig(cf, series)
    requires outcome(cf.source) != OtherIOError && outcome(cf.source + [series]) == OtherIOError
    requires MatchesDicomFileRegex(n1) && MatchesDicomFileRegex(n2)
    requires IsRightSeries(first)
    ensures Copies(cf, outcome, StudyTree(cf.source, series, n1, first, n2, second)) == [
      CopyAction(cf.source, cf.target),
      CopyAction(cf.source + [series], cf.target + [series])]
  {
    var files := [File(n1, Some(first)), File(n2, Some(second))];
    StudyWalk(cf, outcome, series, n1, first, n2, second);
    DicomFileNameStartsWithI(n1);
    assert Qualifies(files[0]);
    AdmittedSeriesStep(cf, outcome, series, files);
  }

  /**
    The admitting scan only asks for an "i" prefix: a bottom directory admitted by a
    wanted file whose name is not an image file name is copied without that file.
   */
  lemma AdmittedByUncopiedFile(cf: Config, outcome: Path -> CopyOutcome, series: string,
                               n1: string, first: string)
    requires StudyConfig(cf, series)
    requires outcome(cf.source) != OtherIOError && outcome(cf.source + [series]) != OtherIOError
    requires StartsWith(n1, "i") && !MatchesDicomFileRegex(n1) && IsRightSeries(first)
    ensures Copies(cf, outcome, Dir(FileName(cf.source), [Dir(series, [File(n1, Some(first))])])) == [
      CopyAction(cf.source, cf.target),
      CopyAction(cf.source + [series], cf.target + [series])]
  {
    var files := [File(n1, Some(first))];
    var seriesDir := Dir(series, files);
    var sp := cf.source + [series];
    StudyRootWalk(cf, outcome, seriesDir);
    assert Qualifies(files[0]);
    AdmittedSeriesStep(cf, outcome, series, files);
    SingleEntryDirectoryWalk(cf, outcome, seriesDir, sp);
    assert seriesDir.children[0] == files[0];
    OtherFileWalk(cf, outcome, sp, files[0]);
  }

  /** A T1 sagittal protocol is a wanted series and another protocol is not. */
  lemma StudySeriesDescriptions()
    ensures IsRightSeries("t1sag_protocol") && !IsRightSeries("other_protocol")
  {
    assert !IsRightSeries("other_protocol") by {
      assert "other_protocol"[..5][0] == 'o';
      assert "other_protocol"[..10][0] == 'o';
    }
  }
}
