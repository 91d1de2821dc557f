/**
  The `CopyFiles` file visitor: for every directory and file met while walking the
  source tree, it decides whether to copy it to the mirrored place under the target
  root and whether to descend.

  The Java regular-expression engine behind `String.matches` is the configuration's
  `matches` oracle; `Files.copy` is represented by its outcome; the DICOM reader by the
  series description stored in each file entry.
 */
module CopyFiles {
  import opened Options
  import opened Paths
  import opened DicomNames
  import opened FileTree
  import opened FileTreeWalk

  /**
    The visitor's final fields: the source and target roots, the regular expressions
    for the structural sub-directories and for the bottom DICOM directory, and
    `matches(s, regex)`, standing for Java's `s.matches(regex)`.
   */
  datatype Config = Config(
    source: Path,
    target: Path,
    dicomSubDirs: seq<string>,
    dicomBottomDir: string,
    matches: (string, string) -> bool)

  /** How a call of `Files.copy` ended. */
  datatype CopyOutcome = Copied | FileAlreadyExists | DirectoryNotEmpty | OtherIOError

  /** One call of `Files.copy(src, dst, COPY_ATTRIBUTES, REPLACE_EXISTING)`. */
  datatype CopyAction = CopyAction(src: Path, dst: Path)

  /** `target.resolve(source.relativize(p))`: where `p` is mirrored under the target root. */
  function TargetOf(cf: Config, p: Path): Path
  {
    Resolve(cf.target, Relativize(cf.source, p))
  }

  /** Where each path under the source root lands, and that the target keeps its relative position. */
  lemma TargetOfMirrors(cf: Config, p: Path)
    requires cf.source <= p
    ensures TargetOf(cf, p) == cf.target + p[|cf.source|..]
    ensures Relativize(cf.target, TargetOf(cf, p)) == Relativize(cf.source, p)
  {
    MirrorKeepsRelativePosition(cf.source, cf.target, p);
  }

  /** Below the source root, a path and its mirror end in the same name. */
  lemma TargetKeepsFileName(cf: Config, p: Path)
    requires cf.source <= p && |p| > |cf.source|
    ensures FileName(TargetOf(cf, p)) == FileName(p)
  {
    var rel := p[|cf.source|..];
    var t := cf.target + rel;
    assert TargetOf(cf, p) == t by {
      TargetOfMirrors(cf, p);
    }
    assert t[|t| - 1] == rel[|rel| - 1] == p[|p| - 1];
  }

  /**
    `copyFile`: a copy that succeeds, or fails only because the target already
    exists or is a non-empty directory, lets the walk go on; any other I/O error
    skips the subtree.
   */
  function CopyFile(outcome: CopyOutcome): (r: FileVisitResult)
    ensures r == Continue <==> outcome != OtherIOError
    ensures r == SkipSubtree <==> outcome == OtherIOError
  {
    match outcome
    case Copied => Continue
    case FileAlreadyExists => Continue
    case DirectoryNotEmpty => Continue
    case OtherIOError => SkipSubtree
  }

  /**
    What `AttributeList.read` followed by reading SeriesDescription yields for a
    directory entry; only a file can be read.
   */
  function ReadSeries(entry: Node): Option<string>
  {
    if entry.File? then entry.series else None
  }

  /** A qualifying DICOM file: its name starts with "i", it parses, and its series is a wanted one. */
  predicate Qualifies(entry: Node)
  {
    && entry.File?
    && StartsWith(entry.name, "i")
    && entry.series.Some?
    && IsRightSeries(entry.series.value)
  }

  /** `filterT1T2.accept`: a parse failure rejects the entry instead of failing the listing. */
  function Accept(entry: Node): (accepted: bool)
    ensures accepted <==> Qualifies(entry)
  {
    if StartsWith(entry.name, "i") then
      match ReadSeries(entry)
      case None => false
      case Some(description) => IsRightSeries(description)
    else false
  }

  /**
    `getSeriesDescriptionFromPath`: the series description of an entry whose name
    starts with "i" and that parses; null (None) otherwise.
   */
  method GetSeriesDescriptionFromPath(entry: Node) returns (seriesDescription: Option<string>)
    ensures seriesDescription.Some? <==> StartsWith(entry.name, "i") && entry.File? && entry.series.Some?
    ensures seriesDescription.Some? ==> seriesDescription == entry.series
  {
    seriesDescription := None;
    if StartsWith(entry.name, "i") {
      var read := ReadSeries(entry);
      if read.Some? {
        seriesDescription := read;
      }
    }
  }

  /**
    The directory holds a qualifying DICOM file. A listing that failed (None)
    holds none.
   */
  predicate HasRightDicoms(listing: Option<seq<Node>>)
  {
    listing.Some? && exists j :: 0 <= j < |listing.value| && Qualifies(listing.value[j])
  }

  /** Some sub-directory regular expression matches `name`. */
  predicate MatchesSubDir(cf: Config, name: string)
  {
    exists j :: 0 <= j < |cf.dicomSubDirs| && cf.matches(name, cf.dicomSubDirs[j])
  }

  /** `name` matches the bottom DICOM directory's regular expression. */
  predicate IsBottomDicomDir(cf: Config, name: string)
  {
    cf.matches(name, cf.dicomBottomDir)
  }

  /**
    `name` matches one of the regular expressions: the source root's own name,
    the bottom directory's, or a sub-directory's.
   */
  predicate MatchesRegexes(cf: Config, name: string)
  {
    cf.matches(name, FileName(cf.source)) || IsBottomDicomDir(cf, name) || MatchesSubDir(cf, name)
  }

  /** A directory is copied when its name matches, and a bottom directory only with a qualifying file. */
  predicate Admits(cf: Config, name: string, listing: Option<seq<Node>>)
  {
    MatchesRegexes(cf, name) && (!IsBottomDicomDir(cf, name) || HasRightDicoms(listing))
  }

  /**
    The specification of `preVisitDirectory` for the directory `dir` whose own listing
    is `listing` and whose copy would end with `outcome`: an admitted directory is
    copied to its mirror and the verdict is `copyFile`'s; any other is skipped uncopied.
   */
  function DirectoryStep(cf: Config, dir: Path, listing: Option<seq<Node>>, outcome: CopyOutcome): (s: Step<CopyAction>)
    ensures s.result == Continue <==> Admits(cf, FileName(dir), listing) && outcome != OtherIOError
    ensures s.result == Continue || s.result == SkipSubtree
    ensures s.effects == if Admits(cf, FileName(dir), listing) then [CopyAction(dir, TargetOf(cf, dir))] else []
  {
    if Admits(cf, FileName(dir), listing) then
      Step(CopyFile(outcome), [CopyAction(dir, TargetOf(cf, dir))])
    else
      Step(SkipSubtree, [])
  }

  /**
    `preVisitDirectory`, step by step as the source does it: classify the name, test
    for the bottom directory separately, scan the listing for a qualifying file until
    the first one, then decide. `examined` counts the entries the scan took from the
    listing.
   */
  method PreVisitDirectory(cf: Config, dir: Path, listing: Option<seq<Node>>, outcome: CopyOutcome)
    returns (step: Step<CopyAction>, ghost examined: nat)
    ensures step == DirectoryStep(cf, dir, listing, outcome)
    ensures listing.None? ==> examined == 0
    ensures listing.Some? && !HasRightDicoms(listing) ==> examined == |listing.value|
    ensures HasRightDicoms(listing) ==>
      && 0 < examined <= |listing.value|
      && Qualifies(listing.value[examined - 1])
      && forall j :: 0 <= j < examined - 1 ==> !Qualifies(listing.value[j])
  {
    var targetDir := TargetOf(cf, dir);
    var sourceDirString := FileName(cf.source);
    var name := FileName(dir);
    var targetDirMatchesRegexes := false;
    var targetDirIsBottomDicomDir := false;
    var targetDirHasRightDicoms := false;

    if cf.matches(name, sourceDirString) {
      targetDirMatchesRegexes := true;
    } else if cf.matches(name, cf.dicomBottomDir) {
      targetDirMatchesRegexes := true;
    } else {
      for i := 0 to |cf.dicomSubDirs|
        invariant targetDirMatchesRegexes <==> exists j :: 0 <= j < i && cf.matches(name, cf.dicomSubDirs[j])
      {
        if cf.matches(name, cf.dicomSubDirs[i]) {
          targetDirMatchesRegexes := true;
        }
      }
    }

    if cf.matches(name, cf.dicomBottomDir) {
      targetDirIsBottomDicomDir := true;
    }

    examined := 0;
    if listing.Some? {
      var entries := listing.value;
      var i := 0;
      while i < |entries|
        invariant 0 <= i <= |entries|
        invariant !targetDirHasRightDicoms && examined == i
        invariant forall j :: 0 <= j < i ==> !Qualifies(entries[j])
      {
        examined := i + 1;
        if Accept(entries[i]) {
          var seriesDescription := GetSeriesDescriptionFromPath(entries[i]);
          if seriesDescription.Some? && IsRightSeries(seriesDescription.value) {
            targetDirHasRightDicoms := true;
            break;
          }
        }
        i := i + 1;
      }
    }
    // A listing that fails is reported and leaves targetDirHasRightDicoms false.

    if targetDirMatchesRegexes {
      if !targetDirIsBottomDicomDir {
        return Step(CopyFile(outcome), [CopyAction(dir, targetDir)]), examined;
      } else if targetDirHasRightDicoms {
        return Step(CopyFile(outcome), [CopyAction(dir, targetDir)]), examined;
      }
    }
    return Step(SkipSubtree, []), examined;
  }

  /** `postVisitDirectory`: an error while walking the directory is only reported. */
  function PostVisitDirectory(dir: Path): (r: FileVisitResult)
    ensures r == Continue
  {
    Continue
  }

  /**
    `visitFile`: the file is copied to its mirror exactly when the mirror's name
    matches `^i\d+\.MRDC\.\d+$`; a failed copy is only reported, so the walk always
    goes on. The file's series description plays no part.
   */
  function VisitFile(cf: Config, file: Path): (s: Step<CopyAction>)
    ensures s.result == Continue
    ensures |s.effects| <= 1
    ensures s.effects != [] <==> MatchesDicomFileRegex(FileName(TargetOf(cf, file)))
    ensures forall a :: a in s.effects ==> a == CopyAction(file, TargetOf(cf, file))
  {
    var targetFile := TargetOf(cf, file);
    if MatchesDicomFileRegex(FileName(targetFile)) then Step(Continue, [CopyAction(file, targetFile)])
    else Step(Continue, [])
  }

  /** `visitFileFailed`: an entry that cannot be visited is only reported. */
  function VisitFileFailed(file: Path): (r: FileVisitResult)
    ensures r == Continue
  {
    Continue
  }

  /** A directory matching none of the regular expressions is skipped and not copied, whatever it holds. */
  lemma UnmatchedDirectoryIsSkipped(cf: Config, dir: Path, listing: Option<seq<Node>>, outcome: CopyOutcome)
    requires !cf.matches(FileName(dir), FileName(cf.source))
    requires !cf.matches(FileName(dir), cf.dicomBottomDir)
    requires forall j :: 0 <= j < |cf.dicomSubDirs| ==> !cf.matches(FileName(dir), cf.dicomSubDirs[j])
    ensures DirectoryStep(cf, dir, listing, outcome) == Step(SkipSubtree, [])
  {
  }

  /**
    A bottom directory is copied exactly when its listing holds a qualifying file,
    whether or not it also matches the root name or a sub-directory expression.
   */
  lemma BottomDirectoryNeedsRightDicoms(cf: Config, dir: Path, listing: Option<seq<Node>>, outcome: CopyOutcome)
    requires IsBottomDicomDir(cf, FileName(dir))
    ensures DirectoryStep(cf, dir, listing, outcome).effects != [] <==> HasRightDicoms(listing)
    ensures !HasRightDicoms(listing) ==> DirectoryStep(cf, dir, listing, outcome).result == SkipSubtree
  {
  }

  /**
    A directory that matches the root name or a sub-directory expression, and not
    the bottom one, is copied whatever it holds, and the verdict is `copyFile`'s.
   */
  lemma StructuralDirectoryIsCopied(cf: Config, dir: Path, listing: Option<seq<Node>>, outcome: CopyOutcome)
    requires cf.matches(FileName(dir), FileName(cf.source)) || MatchesSubDir(cf, FileName(dir))
    requires !IsBottomDicomDir(cf, FileName(dir))
    ensures DirectoryStep(cf, dir, listing, outcome) == Step(CopyFile(outcome), [CopyAction(dir, TargetOf(cf, dir))])
  {
  }

  /**
    Qualification is existential and a file that does not parse does not spoil it:
    one qualifying file anywhere in the listing is enough, also with an unparsable
    file inserted at any position, and a failed listing gives none.
   */
  lemma QualificationIsExistential(entries: seq<Node>, k: nat, j: nat)
    requires k < |entries| && Qualifies(entries[k])
    requires j <= |entries|
    ensures HasRightDicoms(Some(entries))
    ensures !HasRightDicoms(None)
    ensures forall bad: string :: HasRightDicoms(Some(entries[..j] + [File(bad, None)] + entries[j..]))
  {
    forall bad: string
      ensures HasRightDicoms(Some(entries[..j] + [File(bad, None)] + entries[j..]))
    {
      var es := entries[..j] + [File(bad, None)] + entries[j..];
      if k < j {
        assert es[k] == entries[k];
      } else {
        assert es[k + 1] == entries[k];
      }
    }
  }
}
