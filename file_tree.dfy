/**
  The source tree as the copier sees it. Each entry has a name; a file carries what
  the DICOM reader would extract as its SeriesDescription (None when the file cannot
  be parsed), and an entry the walker cannot read (attributes unreadable, or a
  directory it cannot open) is `Unreadable`.
 */
module FileTree {
  import opened Options
  import opened Paths

  datatype Node =
    | File(name: string, series: Option<string>)
    | Dir(name: string, children: seq<Node>)
    | Unreadable(name: string)

  /** As in a real file system, no directory holds two entries of the same name. */
  ghost predicate WellFormed(n: Node)
  {
    n.Dir? ==>
      && (forall i, j :: 0 <= i < j < |n.children| ==> n.children[i].name != n.children[j].name)
      && (forall i :: 0 <= i < |n.children| ==> WellFormed(n.children[i]))
  }

  /** An entry of the tree together with its path. */
  datatype Located = Located(node: Node, path: Path)

  /**
    The entry reached from `n`, whose path is `p`, by following the child
    indices `ix`; None when an index does not exist.
   */
  function At(n: Node, p: Path, ix: seq<nat>): Option<Located>
    decreases ix
  {
    if ix == [] then Some(Located(n, p))
    else if n.Dir? && ix[0] < |n.children| then
      At(n.children[ix[0]], p + [n.children[ix[0]].name], ix[1..])
    else None
  }

  /** Each index followed adds one name element below `p`. */
  lemma {:induction false} AtPath(n: Node, p: Path, ix: seq<nat>)
    requires At(n, p, ix).Some?
    ensures p <= At(n, p, ix).value.path
    ensures |At(n, p, ix).value.path| == |p| + |ix|
    decreases ix
  {
    if ix != [] {
      var c := n.children[ix[0]];
      AtPath(c, p + [c.name], ix[1..]);
    }
  }

  /** Following `ix` and then `k` is following `ix + [k]`. */
  lemma {:induction false} AtExtend(n: Node, p: Path, ix: seq<nat>, k: nat)
    requires At(n, p, ix).Some? && At(n, p, ix).value.node.Dir?
    requires k < |At(n, p, ix).value.node.children|
    ensures
      var d := At(n, p, ix).value;
      At(n, p, ix + [k]) == Some(Located(d.node.children[k], d.path + [d.node.children[k].name]))
    decreases ix
  {
    if ix != [] {
      assert (ix + [k])[1..] == ix[1..] + [k];
      var c := n.children[ix[0]];
      AtExtend(c, p + [c.name], ix[1..], k);
    }
  }

  /**
    In a well-formed tree the path of an entry determines its position: if one
    entry's path lies under another's, its index sequence extends the other's.
   */
  lemma {:induction false} AtPathDeterminesIndices(n: Node, p: Path, ix: seq<nat>, jx: seq<nat>)
    requires WellFormed(n)
    requires At(n, p, ix).Some? && At(n, p, jx).Some?
    requires At(n, p, jx).value.path <= At(n, p, ix).value.path
    ensures jx <= ix
    decreases ix
  {
    AtPath(n, p, ix);
    AtPath(n, p, jx);
    if jx != [] {
      assert ix != [];
      var ci, cj := n.children[ix[0]], n.children[jx[0]];
      AtPath(ci, p + [ci.name], ix[1..]);
      AtPath(cj, p + [cj.name], jx[1..]);
      assert At(n, p, ix).value.path[|p|] == ci.name;
      assert At(n, p, jx).value.path[|p|] == cj.name;
      assert ix[0] == jx[0];
      AtPathDeterminesIndices(ci, p + [ci.name], ix[1..], jx[1..]);
      assert jx == [jx[0]] + jx[1..] && ix == [ix[0]] + ix[1..];
    }
  }
}
