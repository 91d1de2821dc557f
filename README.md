# dicomcopy: the filtered tree copy of `CopyFiles`, in Dafny

`CopyFiles` is the `FileVisitor` that dicomcopy hands to `Files.walkFileTree(source, …)`.
It copies a DICOM study tree from a source root to a target root. Only some directories
are kept:

- A directory is kept when its name matches one of three things: the source root's own
  name (used as a regular expression), the bottom-directory expression, or one of the
  sub-directory expressions.
- A bottom directory is kept only when it holds a qualifying image. A qualifying image
  has a name that starts with "i", parses as DICOM, and has a SeriesDescription that
  starts with "t1sag" or "t2flairsag".
- A kept directory is copied, and the walk descends into it unless the copy failed with
  an I/O error other than "already exists" or "not empty".
- Every directory that is not kept is skipped with all its contents.
- Inside a directory the walk enters, a file is copied exactly when its name matches
  `^i\d+\.MRDC\.\d+$`, whatever its series.
- Every copy goes to `target.resolve(source.relativize(p))`.

The project has these modules:

| module | file | contents |
|---|---|---|
| `Options` | `options.dfy` | the `Option` type |
| `Paths` | `paths.dfy` | paths as sequences of names; `relativize`, `resolve`, and the mirroring lemmas |
| `DicomNames` | `dicom_names.dfy` | the prefix tests and the file-name pattern, and a proof that the matcher accepts exactly the pattern's language |
| `FileTree` | `file_tree.dfy` | the source tree, and entries addressed by child indices |
| `FileTreeWalk` | `file_tree_walk.dfy` | the semantics of `Files.walkFileTree` for a visitor with all four `FileVisitResult` values, without links |
| `CopyFiles` | `copy_files.dfy` | the visitor's configuration and handlers; `preVisitDirectory` is written step by step with its two loops and proved against a specification function |
| `CopyFilesWalk` | `copy_files_walk.dfy` | the visitor plugged into the walk, with soundness, completeness, pruning and mirroring for any tree |
| `CopyFilesScenarios` | `copy_files_scenarios.dfy` | exact copy sequences for a study directory with one series directory |

The visitor's fields are final, so the configuration is a value (`Config`). Its
`matches(s, regex)` stands for Java's `String.matches`.

One consequence of the source follows from the rules above: the source root itself is
kept only if its own name, read as a regular expression, matches itself, or if it matches
another expression. Otherwise nothing at all is copied (`SkippedDirectoryHidesDescendants`
with the empty index sequence).

## Model

| member | source | states |
|---|---|---|
| `Paths.Relativize` | src/main/scala/dicomcopy/CopyFiles.java:60 | relativizing a path below the base gives the part of the path below the base |
| `Paths.RelativizeResolve` | src/main/scala/dicomcopy/CopyFiles.java:60 | relativizing a resolved relative path gives that relative path back |
| `Paths.ResolveRelativize` | src/main/scala/dicomcopy/CopyFiles.java:60 | resolving the relativized form of a descendant gives the descendant back |
| `Paths.MirrorKeepsRelativePosition` | src/main/scala/dicomcopy/CopyFiles.java:138 | a mirrored path lies relative to the target root where the original lies relative to the source root |
| `Paths.MirrorIsInjective` | src/main/scala/dicomcopy/CopyFiles.java:60 | two distinct descendants of the source root never share a target path |
| `Paths.Resolve` | src/main/scala/dicomcopy/CopyFiles.java:60 | resolving a relative path gives a path below the base whose part below the base is that relative path |
| `DicomNames.IsRightSeries` | src/main/scala/dicomcopy/CopyFiles.java:88 | decides a wanted series: the description starts with "t1sag" or with "t2flairsag" (also the test at line 47) |
| `DicomNames.MatchesDicomFileRegex` | src/main/scala/dicomcopy/CopyFiles.java:139-142 | decides the full match of `^i\d+\.MRDC\.\d+$`: "i", the greedy digit run, which must be non-empty, ".MRDC.", then one or more digits up to the end; its meaning is proved by `DicomFileRegexMeaning` |
| `DicomNames.DigitRun` | src/main/scala/dicomcopy/CopyFiles.java:139 | the greedy `\d+` run: all digits, and the character after it is not a digit |
| `DicomNames.DigitRunOfDigitsThenOther` | src/main/scala/dicomcopy/CopyFiles.java:139 | the digit run of digits followed by a non-digit is exactly those digits |
| `DicomNames.MatchedNameIsSpelled` | src/main/scala/dicomcopy/CopyFiles.java:139-142 | a name the matcher accepts is "i", digits, ".MRDC.", digits |
| `DicomNames.SpelledNameMatches` | src/main/scala/dicomcopy/CopyFiles.java:139-142 | every name spelled "i", digits, ".MRDC.", digits is accepted |
| `DicomNames.DicomFileRegexMeaning` | src/main/scala/dicomcopy/CopyFiles.java:139-142 | the matcher accepts a name if and only if the name is in the language of `^i\d+\.MRDC\.\d+$` |
| `DicomNames.DicomFileNameStartsWithI` | src/main/scala/dicomcopy/CopyFiles.java:43 | every name the file pattern accepts passes the scan's "i" prefix test |
| `DicomNames.StartingWithIIsNotEnough` | src/main/scala/dicomcopy/CopyFiles.java:43 | "i1.dcm" passes the prefix test but not the file pattern |
| `CopyFiles.TargetOf` | src/main/scala/dicomcopy/CopyFiles.java:60 | computes `target.resolve(source.relativize(p))`, the mirror of `p` (also used at line 138); what it is below the source root is proved by `TargetOfMirrors` |
| `CopyFiles.TargetOfMirrors` | src/main/scala/dicomcopy/CopyFiles.java:60 | the target of a path below the source root is the target root followed by the path's part below the source root |
| `CopyFiles.TargetKeepsFileName` | src/main/scala/dicomcopy/CopyFiles.java:138-142 | below the source root, a path and its target end in the same name, so testing the target's name tests the file's name |
| `CopyFiles.CopyFile` | src/main/scala/dicomcopy/CopyFiles.java:26-37 | CONTINUE if and only if the copy succeeded or failed with "already exists" or "not empty"; SKIP_SUBTREE if and only if it failed otherwise |
| `CopyFiles.Accept` | src/main/scala/dicomcopy/CopyFiles.java:39-56 | the filter accepts an entry if and only if its name starts with "i", it parses, and its series is "t1sag…" or "t2flairsag…" |
| `CopyFiles.GetSeriesDescriptionFromPath` | src/main/scala/dicomcopy/CopyFiles.java:116-133 | a description is returned if and only if the name starts with "i" and the entry parses, and it is the entry's description |
| `CopyFiles.HasRightDicoms` | src/main/scala/dicomcopy/CopyFiles.java:84-96 | decides the final value of `targetDirHasRightDicoms`: the listing succeeded and some entry qualifies |
| `CopyFiles.MatchesRegexes` | src/main/scala/dicomcopy/CopyFiles.java:68-78 | decides the final value of `targetDirMatchesRegexes`: the name matches the source root's name, the bottom expression, or some sub-directory expression |
| `CopyFiles.Admits` | src/main/scala/dicomcopy/CopyFiles.java:98-104 | decides whether the directory is copied: it matches, and when it is a bottom directory (lines 80-82) it also holds a qualifying file |
| `CopyFiles.DirectoryStep` | src/main/scala/dicomcopy/CopyFiles.java:98-105 | CONTINUE if and only if the directory is admitted and its copy did not fail; otherwise SKIP_SUBTREE; the directory's mirror is copied exactly when it is admitted |
| `CopyFiles.PreVisitDirectory` | src/main/scala/dicomcopy/CopyFiles.java:59-106 | the step-by-step handler returns exactly `DirectoryStep`; the scan reads no entry of a failed listing, stops at the first qualifying entry, and reads the whole listing when none qualifies |
| `CopyFiles.PostVisitDirectory` | src/main/scala/dicomcopy/CopyFiles.java:109-114 | always CONTINUE |
| `CopyFiles.VisitFile` | src/main/scala/dicomcopy/CopyFiles.java:136-165 | always CONTINUE; at most one copy, to the file's mirror, made exactly when the mirror's name matches the file pattern |
| `CopyFiles.VisitFileFailed` | src/main/scala/dicomcopy/CopyFiles.java:168-171 | always CONTINUE |
| `CopyFiles.UnmatchedDirectoryIsSkipped` | src/main/scala/dicomcopy/CopyFiles.java:68-78 | a directory matching no expression is skipped and not copied, whatever it holds |
| `CopyFiles.BottomDirectoryNeedsRightDicoms` | src/main/scala/dicomcopy/CopyFiles.java:80-105 | a bottom directory is copied if and only if its listing holds a qualifying file, even when it also matches another expression; without one it is skipped |
| `CopyFiles.StructuralDirectoryIsCopied` | src/main/scala/dicomcopy/CopyFiles.java:68-100 | a directory matching the root name or a sub-directory expression, and not the bottom one, is copied whatever it holds, with `copyFile`'s verdict |
| `CopyFiles.QualificationIsExistential` | src/main/scala/dicomcopy/CopyFiles.java:84-96 | one qualifying file anywhere is enough, an unparsable file inserted at any position does not spoil it, and a failed listing never qualifies |
| `CopyFilesWalk.WalkNeverStops` | src/main/scala/dicomcopy/CopyFiles.java:108-171 | no handler returns TERMINATE or SKIP_SIBLINGS, so in the model walking any entry ends normally (the exceptions under "Left out" are not modelled) |
| `CopyFilesWalk.SiblingsAreAllWalked` | src/main/scala/dicomcopy/CopyFiles.java:168-171 | walking a directory's entries is walking each of them in turn; a failing entry never hides its siblings |
| `CopyFilesWalk.CopiesStayBelow` | src/main/scala/dicomcopy/CopyFiles.java:60 | every copy made below an entry copies a path below that entry to its mirror |
| `CopyFilesWalk.CopiesMirror` | src/main/scala/dicomcopy/CopyFiles.java:138 | every copy of the walk goes from a path under the source root to the path in the same relative position under the target root |
| `CopyFilesWalk.CopiesAreOfSelectedEntries` | src/main/scala/dicomcopy/CopyFiles.java:98-149 | soundness: every copy is the copy of an entry the walk reaches and that is selected (an admitted directory, or a file with an image file name) |
| `CopyFilesWalk.SelectedEntriesAreCopied` | src/main/scala/dicomcopy/CopyFiles.java:98-149 | completeness: every selected entry the walk reaches is copied, whatever the outcome of that copy |
| `CopyFilesWalk.SkippedDirectoryHidesDescendants` | src/main/scala/dicomcopy/CopyFiles.java:98-105 | below a directory whose verdict is not CONTINUE nothing is copied, and the directory itself only if it was admitted |
| `CopyFilesWalk.RejectedDirectoryIsAbsent` | src/main/scala/dicomcopy/CopyFiles.java:68-105 | a directory that is not admitted is copied neither itself nor with any descendant |
| `CopyFilesWalk.EnteredDirectoryCopiesEveryDicomFile` | src/main/scala/dicomcopy/CopyFiles.java:136-165 | once the walk enters a directory, every file in it with an image file name is copied, whatever its series |
| `CopyFilesScenarios.ImageFileNamesMatch` | src/main/scala/dicomcopy/CopyFiles.java:139-142 | "i1.MRDC.1" and "i2.MRDC.2" match the file pattern and "i1.dcm" does not |
| `CopyFilesScenarios.StudySeriesDescriptions` | src/main/scala/dicomcopy/CopyFiles.java:47 | "t1sag_protocol" is a wanted series and "other_protocol" is not |
| `CopyFilesScenarios.OneQualifyingFileCopiesBoth` | src/main/scala/dicomcopy/CopyFiles.java:142-162 | one qualifying file admits the series directory, and then both image files are copied, the second whatever its series |
| `CopyFilesScenarios.NoQualifyingFileCopiesNothingBelowStudy` | src/main/scala/dicomcopy/CopyFiles.java:80-105 | without a qualifying file only the study root is copied |
| `CopyFilesScenarios.FailedSeriesCopySkipsItsFiles` | src/main/scala/dicomcopy/CopyFiles.java:26-37 | when copying the admitted series directory fails, none of its files is copied |
| `CopyFilesScenarios.AdmittedByUncopiedFile` | src/main/scala/dicomcopy/CopyFiles.java:43-142 | a series directory admitted by a wanted file whose name is not an image file name is copied without that file |

## Left out

- File system effects are not modelled: `Files.copy` with COPY_ATTRIBUTES and REPLACE_EXISTING, attribute preservation, and the state of the target tree. A copy is represented by its outcome (`CopyOutcome`). The walk yields the sequence of copy calls it makes, so idempotence over an existing target is not stated.
- The PixelMed DICOM reader (`AttributeList.read`, `getDelimitedStringValuesOrEmptyString`) is not modelled. Each file carries the series description the reader would return, or None when it cannot be read. A DicomException and an IOException from the reader are both None.
- An IOException inside `filterT1T2.accept` is not modelled. This covers an entry named "i…" that is a directory or cannot be read. In Java it surfaces as an unchecked DirectoryIteratorException that escapes `preVisitDirectory` and ends the walk. In the model such an entry is simply not accepted.
- Closing the directory stream, logging to `System.err`, symbolic links and cycles are not modelled.
- `CopyFilesWalk.WalkNeverStops` holds for the model only. Two exceptions that end the whole walk in Java are not modelled. First, `String.matches` throws PatternSyntaxException when its expression is invalid. This happens at lines 68, 70, 74 and 80 when the source root's own name (for example "study[2"), the bottom expression or a sub-directory expression is not a valid regular expression. Second, iterating the handler's own directory stream (line 85) can fail with DirectoryIteratorException, which line 94 does not catch. The total `Config.matches` oracle and the `Option` listing cannot express either exception.
- The Java regular-expression engine is the `Config.matches` oracle. Only the fixed pattern `^i\d+\.MRDC\.\d+$` and the prefix tests are concrete.
- `CopyFilesWalk.CopyFilesVisitor`: the walk always hands `preVisitDirectory` the directory's listing, and never passes an IOException to `postVisitDirectory`. A failed listing is covered only at the level of the handler: `PreVisitDirectory` and `DirectoryStep` take `Option` listings.
- Paths are taken to be normalised, with no "." or ".." of their own.
- `Paths.FileName`: the file name of a root path is modelled as "" rather than as Java's null, which would throw a NullPointerException in `preVisitDirectory`.
- The `walkFileTree` driver's own I/O is not modelled. An entry whose attributes or contents it cannot read is an `Unreadable` node and goes to `visitFileFailed`.
