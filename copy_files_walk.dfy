/**
  `Files.walkFileTree(source, new CopyFiles(...))`: the copier's visitor plugged into
  the walk, and what the whole walk copies. The result of a walk is the sequence of
  `Files.copy` calls it makes, in order.
 */
module CopyFilesWalk {
  import opened Options
  import opened Paths
  import opened DicomNames
  import opened FileTree
  import opened FileTreeWalk
  import opened CopyFiles

  /**
    The visitor; `outcome(dir)` is how copying the directory `dir` ends. A file copy's
    outcome plays no part, since `visitFile` goes on whatever happens.
   */
  function CopyFilesVisitor(cf: Config, outcome: Path -> CopyOutcome): Visitor<CopyAction>
  {
    Visitor(
      (dir, entries) => DirectoryStep(cf, dir, Some(entries), outcome(dir)),
      file => VisitFile(cf, file),
      VisitFileFailed,
      PostVisitDirectory)
  }

  /** The visitor's callbacks are the handlers of the `CopyFiles` module. */
  lemma VisitorCallbacks(cf: Config, outcome: Path -> CopyOutcome, p: Path, cs: seq<Node>)
    ensures CopyFilesVisitor(cf, outcome).preVisitDirectory(p, cs) == DirectoryStep(cf, p, Some(cs), outcome(p))
    ensures CopyFilesVisitor(cf, outcome).visitFile(p) == VisitFile(cf, p)
    ensures CopyFilesVisitor(cf, outcome).visitFileFailed(p) == Continue
    ensures CopyFilesVisitor(cf, outcome).postVisitDirectory(p) == Continue
  {
  }

  /** The copy calls of walking the tree `root` found at the source root. */
  function Copies(cf: Config, outcome: Path -> CopyOutcome, root: Node): seq<CopyAction>
  {
    WalkFileTree(CopyFilesVisitor(cf, outcome), cf.source, root)
  }

  /** The verdict of `preVisitDirectory` on the directory `d`. */
  function Verdict(cf: Config, outcome: Path -> CopyOutcome, d: Located): FileVisitResult
    requires d.node.Dir?
  {
    DirectoryStep(cf, d.path, Some(d.node.children), outcome(d.path)).result
  }

  /** The entry is copied once it is visited: an admitted directory, or a file with a DICOM name. */
  predicate Selected(cf: Config, l: Located)
  {
    match l.node
    case Dir(_, cs) => Admits(cf, FileName(l.path), Some(cs))
    case File(_, _) => MatchesDicomFileRegex(FileName(TargetOf(cf, l.path)))
    case Unreadable(_) => false
  }

  /** `a` is the copy of the selected entry found at `l`. */
  predicate SelectedAndCopied(cf: Config, l: Option<Located>, a: CopyAction)
  {
    l.Some? && Selected(cf, l.value) && a == CopyOf(cf, l.value)
  }

  /** The copy call for the entry at `l`. */
  function CopyOf(cf: Config, l: Located): CopyAction
  {
    CopyAction(l.path, TargetOf(cf, l.path))
  }

  /** The walk visits the entry at `ix`: every directory on the way to it said CONTINUE. */
  ghost predicate Reached(cf: Config, outcome: Path -> CopyOutcome, n: Node, p: Path, ix: seq<nat>)
    decreases ix
  {
    ix == [] ||
    (&& n.Dir?
     && ix[0] < |n.children|
     && Verdict(cf, outcome, Located(n, p)) == Continue
     && Reached(cf, outcome, n.children[ix[0]], p + [n.children[ix[0]].name], ix[1..]))
  }

  /** No handler of the visitor returns TERMINATE or SKIP_SIBLINGS, so the walk never stops early. */
  lemma {:induction false} WalkNeverStops(cf: Config, outcome: Path -> CopyOutcome, n: Node, p: Path)
    ensures WalkNode(CopyFilesVisitor(cf, outcome), n, p).control == Proceed
    decreases n, 1
  {
    VisitorCallbacks(cf, outcome, p, if n.Dir? then n.children else []);
    if n.Dir? {
      WalkChildrenNeverStop(cf, outcome, n.children, p);
    }
  }

  lemma {:induction false} WalkChildrenNeverStop(cf: Config, outcome: Path -> CopyOutcome, cs: seq<Node>, p: Path)
    ensures WalkChildren(CopyFilesVisitor(cf, outcome), cs, p).control == Proceed
    decreases cs, 0
  {
    if cs != [] {
      WalkNeverStops(cf, outcome, cs[0], p + [cs[0].name]);
      WalkChildrenNeverStop(cf, outcome, cs[1..], p);
    }
  }

  /**
    A failing entry never stops the walk over its siblings: walking a directory's
    entries is walking each of them in turn.
   */
  lemma {:induction false} SiblingsAreAllWalked(cf: Config, outcome: Path -> CopyOutcome, cs: seq<Node>, p: Path, k: nat)
    requires k <= |cs|
    ensures WalkChildren(CopyFilesVisitor(cf, outcome), cs, p).effects ==
      WalkChildren(CopyFilesVisitor(cf, outcome), cs[..k], p).effects
      + WalkChildren(CopyFilesVisitor(cf, outcome), cs[k..], p).effects
  {
    var v := CopyFilesVisitor(cf, outcome);
    if k > 0 {
      WalkNeverStops(cf, outcome, cs[0], p + [cs[0].name]);
      SiblingsAreAllWalked(cf, outcome, cs[1..], p, k - 1);
      assert cs[..k][0] == cs[0];
      assert cs[..k][1..] == cs[1..][..k - 1];
      assert cs[1..][k - 1..] == cs[k..];
    } else {
      assert cs[..k] == [] && cs[k..] == cs;
    }
  }

  /** Every copy the walk below `n` makes is at a path below `p`, mirrored under the target root. */
  lemma {:induction false} CopiesStayBelow(cf: Config, outcome: Path -> CopyOutcome, n: Node, p: Path, a: CopyAction)
    requires a in WalkNode(CopyFilesVisitor(cf, outcome), n, p).effects
    ensures p <= a.src && a.dst == TargetOf(cf, a.src)
    decreases n
  {
    var v := CopyFilesVisitor(cf, outcome);
    VisitorCallbacks(cf, outcome, p, if n.Dir? then n.children else []);
    if n.Dir? {
      var s := v.preVisitDirectory(p, n.children);
      if a !in s.effects {
        EffectComesFromChild(v, n.children, p, a);
        var k :| 0 <= k < |n.children| && a in WalkNode(v, n.children[k], p + [n.children[k].name]).effects;
        CopiesStayBelow(cf, outcome, n.children[k], p + [n.children[k].name], a);
      }
    }
  }

  /**
    Mirroring: every copy goes from a path under the source root to the path that
    lies in the same relative position under the target root.
   */
  lemma CopiesMirror(cf: Config, outcome: Path -> CopyOutcome, root: Node, a: CopyAction)
    requires a in Copies(cf, outcome, root)
    ensures cf.source <= a.src
    ensures a.dst == cf.target + a.src[|cf.source|..]
    ensures Relativize(cf.target, a.dst) == Relativize(cf.source, a.src)
  {
    CopiesStayBelow(cf, outcome, root, cf.source, a);
    TargetOfMirrors(cf, a.src);
  }

  /**
    Where a copy of the walk below `n` comes from: `n`'s own handler (`k` is -1), or
    the walk of its `k`-th entry, entered because `n` said CONTINUE.
   */
  lemma CopyOrigin(cf: Config, outcome: Path -> CopyOutcome, n: Node, p: Path, a: CopyAction) returns (k: int)
    requires a in WalkNode(CopyFilesVisitor(cf, outcome), n, p).effects
    ensures k == -1 ==>
      || (n.File? && a in VisitFile(cf, p).effects)
      || (n.Dir? && a in DirectoryStep(cf, p, Some(n.children), outcome(p)).effects)
    ensures k != -1 ==>
      && n.Dir? && 0 <= k < |n.children|
      && Verdict(cf, outcome, Located(n, p)) == Continue
      && a in WalkNode(CopyFilesVisitor(cf, outcome), n.children[k], p + [n.children[k].name]).effects
  {
    var v := CopyFilesVisitor(cf, outcome);
    VisitorCallbacks(cf, outcome, p, if n.Dir? then n.children else []);
    k := -1;
    if n.Dir? && a !in v.preVisitDirectory(p, n.children).effects {
      EffectComesFromChild(v, n.children, p, a);
      k :| 0 <= k < |n.children| && a in WalkNode(v, n.children[k], p + [n.children[k].name]).effects;
    }
  }

  /**
    Soundness: every copy of the walk is the copy of an entry that the walk visits
    and that is selected.
   */
  lemma {:induction false} CopiesAreOfSelectedEntries(cf: Config, outcome: Path -> CopyOutcome, n: Node, p: Path, a: CopyAction)
    requires a in WalkNode(CopyFilesVisitor(cf, outcome), n, p).effects
    ensures exists ix :: Reached(cf, outcome, n, p, ix) && SelectedAndCopied(cf, At(n, p, ix), a)
    decreases n
  {
    var k := CopyOrigin(cf, outcome, n, p, a);
    if k == -1 {
      OwnCopyIsSelected(cf, outcome, n, p, a);
    } else {
      var c := n.children[k];
      CopiesAreOfSelectedEntries(cf, outcome, c, p + [c.name], a);
      var jx :| Reached(cf, outcome, c, p + [c.name], jx) && SelectedAndCopied(cf, At(c, p + [c.name], jx), a);
      ReachedPrepend(cf, outcome, n, p, k, jx);
    }
  }

  /** The copy a visited entry's own handler makes is the copy of that entry, which is selected. */
  lemma OwnCopyIsSelected(cf: Config, outcome: Path -> CopyOutcome, n: Node, p: Path, a: CopyAction)
    requires
      || (n.File? && a in VisitFile(cf, p).effects)
      || (n.Dir? && a in DirectoryStep(cf, p, Some(n.children), outcome(p)).effects)
    ensures Reached(cf, outcome, n, p, []) && SelectedAndCopied(cf, At(n, p, []), a)
  {
  }

  /** An entry the walk visits inside a directory that said CONTINUE is visited from the directory too. */
  lemma ReachedPrepend(cf: Config, outcome: Path -> CopyOutcome, n: Node, p: Path, k: nat, jx: seq<nat>)
    requires n.Dir? && k < |n.children| && Verdict(cf, outcome, Located(n, p)) == Continue
    requires Reached(cf, outcome, n.children[k], p + [n.children[k].name], jx)
    ensures Reached(cf, outcome, n, p, [k] + jx)
    ensures At(n, p, [k] + jx) == At(n.children[k], p + [n.children[k].name], jx)
  {
    var ix := [k] + jx;
    assert ix[0] == k && ix[1..] == jx;
  }

  /**
    Completeness: the walk copies every selected entry it visits, whatever the
    outcome of that copy.
   */
  lemma {:induction false} SelectedEntriesAreCopied(cf: Config, outcome: Path -> CopyOutcome, n: Node, p: Path, ix: seq<nat>)
    requires Reached(cf, outcome, n, p, ix) && At(n, p, ix).Some?
    requires Selected(cf, At(n, p, ix).value)
    ensures CopyOf(cf, At(n, p, ix).value) in WalkNode(CopyFilesVisitor(cf, outcome), n, p).effects
    decreases ix
  {
    var v := CopyFilesVisitor(cf, outcome);
    VisitorCallbacks(cf, outcome, p, if n.Dir? then n.children else []);
    if ix != [] {
      var k := ix[0];
      var cs := n.children;
      SelectedEntriesAreCopied(cf, outcome, cs[k], p + [cs[k].name], ix[1..]);
      forall j | 0 <= j < k
        ensures WalkNode(v, cs[j], p + [cs[j].name]).control == Proceed
      {
        WalkNeverStops(cf, outcome, cs[j], p + [cs[j].name]);
      }
      ChildEffectsReachParent(v, cs, p, k, CopyOf(cf, At(n, p, ix).value));
    }
  }

  /** On the way to an entry the walk visits, every directory said CONTINUE. */
  lemma {:induction false} ReachedThrough(cf: Config, outcome: Path -> CopyOutcome, n: Node, p: Path, ix: seq<nat>, jx: seq<nat>)
    requires Reached(cf, outcome, n, p, ix)
    requires jx < ix
    ensures At(n, p, jx).Some? && At(n, p, jx).value.node.Dir?
    ensures Verdict(cf, outcome, At(n, p, jx).value) == Continue
    decreases ix
  {
    if jx != [] {
      assert jx[0] == ix[0];
      assert jx[1..] < ix[1..];
      ReachedThrough(cf, outcome, n.children[ix[0]], p + [n.children[ix[0]].name], ix[1..], jx[1..]);
    }
  }

  /**
    Pruning: when `preVisitDirectory` does not say CONTINUE for a directory, the walk
    copies nothing strictly below it. Only the directory itself may have been copied
    (an admitted directory whose copy failed), and only if it was admitted.
   */
  lemma SkippedDirectoryHidesDescendants(cf: Config, outcome: Path -> CopyOutcome, root: Node, ix0: seq<nat>, a: CopyAction)
    requires WellFormed(root)
    requires At(root, cf.source, ix0).Some? && At(root, cf.source, ix0).value.node.Dir?
    requires Verdict(cf, outcome, At(root, cf.source, ix0).value) != Continue
    requires a in Copies(cf, outcome, root)
    requires At(root, cf.source, ix0).value.path <= a.src
    ensures a.src == At(root, cf.source, ix0).value.path
    ensures Selected(cf, At(root, cf.source, ix0).value)
  {
    var d := At(root, cf.source, ix0).value;
    CopiesAreOfSelectedEntries(cf, outcome, root, cf.source, a);
    var ix :| Reached(cf, outcome, root, cf.source, ix) && SelectedAndCopied(cf, At(root, cf.source, ix), a);
    AtPathDeterminesIndices(root, cf.source, ix, ix0);
    if ix0 != ix {
      assert ix0 < ix;
      ReachedThrough(cf, outcome, root, cf.source, ix, ix0);
    }
  }

  /**
    A directory that is not admitted (its name matches no expression, or it is a
    bottom directory without a qualifying file) appears in the copy neither itself
    nor with any of its descendants.
   */
  lemma RejectedDirectoryIsAbsent(cf: Config, outcome: Path -> CopyOutcome, root: Node, ix0: seq<nat>, a: CopyAction)
    requires WellFormed(root)
    requires At(root, cf.source, ix0).Some? && At(root, cf.source, ix0).value.node.Dir?
    requires !Admits(cf, FileName(At(root, cf.source, ix0).value.path), Some(At(root, cf.source, ix0).value.node.children))
    requires a in Copies(cf, outcome, root)
    ensures !(At(root, cf.source, ix0).value.path <= a.src)
  {
    if At(root, cf.source, ix0).value.path <= a.src {
      SkippedDirectoryHidesDescendants(cf, outcome, root, ix0, a);
    }
  }

  /** Continuing the walk into a directory that said CONTINUE reaches each of its entries. */
  lemma {:induction false} ReachedExtend(cf: Config, outcome: Path -> CopyOutcome, n: Node, p: Path, ix: seq<nat>, k: nat)
    requires Reached(cf, outcome, n, p, ix) && At(n, p, ix).Some?
    requires At(n, p, ix).value.node.Dir? && k < |At(n, p, ix).value.node.children|
    requires Verdict(cf, outcome, At(n, p, ix).value) == Continue
    ensures Reached(cf, outcome, n, p, ix + [k])
    decreases ix
  {
    var jx := ix + [k];
    if ix == [] {
      assert jx[1..] == [];
      assert Reached(cf, outcome, n.children[k], p + [n.children[k].name], jx[1..]);
    } else {
      var c := n.children[ix[0]];
      assert jx[0] == ix[0] && jx[1..] == ix[1..] + [k];
      assert At(c, p + [c.name], ix[1..]) == At(n, p, ix);
      ReachedExtend(cf, outcome, c, p + [c.name], ix[1..], k);
      assert Reached(cf, outcome, c, p + [c.name], jx[1..]);
    }
  }

  /**
    All or nothing per admitted directory: once the walk enters a directory, every
    file in it whose name matches `^i\d+\.MRDC\.\d+$` is copied, whatever its own
    series description is and whether or not it parses.
   */
  lemma EnteredDirectoryCopiesEveryDicomFile(cf: Config, outcome: Path -> CopyOutcome, root: Node, ix: seq<nat>, k: nat)
    requires Reached(cf, outcome, root, cf.source, ix) && At(root, cf.source, ix).Some?
    requires At(root, cf.source, ix).value.node.Dir?
    requires Verdict(cf, outcome, At(root, cf.source, ix).value) == Continue
    requires k < |At(root, cf.source, ix).value.node.children|
    requires At(root, cf.source, ix).value.node.children[k].File?
    requires MatchesDicomFileRegex(At(root, cf.source, ix).value.node.children[k].name)
    ensures
      var d := At(root, cf.source, ix).value;
      var f := d.path + [d.node.children[k].name];
      CopyAction(f, TargetOf(cf, f)) in Copies(cf, outcome, root)
  {
    var d := At(root, cf.source, ix).value;
    var f := d.path + [d.node.children[k].name];
    AtExtend(root, cf.source, ix, k);
    AtPath(root, cf.source, ix);
    TargetKeepsFileName(cf, f);
    ReachedExtend(cf, outcome, root, cf.source, ix, k);
    SelectedEntriesAreCopied(cf, outcome, root, cf.source, ix + [k]);
  }
}
