/**
  The semantics of `java.nio.file.Files.walkFileTree(start, visitor)` without links
  and without a depth bound: a depth-first, pre-order walk that asks the visitor
  about every entry and obeys the `FileVisitResult` it returns. A visitor's side
  effects are returned as a sequence of effects of type `E`, in the order they occur.
 */
module FileTreeWalk {
  import opened Paths
  import opened FileTree

  datatype FileVisitResult = Continue | Terminate | SkipSubtree | SkipSiblings

  /** What one handler returns: its verdict and the effects it performed. */
  datatype Step<E> = Step(result: FileVisitResult, effects: seq<E>)

  /**
    The four callbacks of a `FileVisitor`. `preVisitDirectory` is given the
    directory's entries, which is what it sees when it lists the directory itself.
   */
  datatype Visitor<E> = Visitor(
    preVisitDirectory: (Path, seq<Node>) -> Step<E>,
    visitFile: Path -> Step<E>,
    visitFileFailed: Path -> FileVisitResult,
    postVisitDirectory: Path -> FileVisitResult)

  /** How the walk goes on after an entry: normally, without the entry's remaining siblings, or not at all. */
  datatype Control = Proceed | SkipRest | Stop

  datatype Walked<E> = Walked(effects: seq<E>, control: Control)

  /** The walker's reaction to a verdict on a file or a skipped directory. */
  function AfterEntry(r: FileVisitResult): (c: Control)
    ensures c == Stop <==> r == Terminate
    ensures c == SkipRest <==> r == SkipSiblings
  {
    if r == Terminate then Stop else if r == SkipSiblings then SkipRest else Proceed
  }

  /**
    Walks the entry `n`, whose path is `p`. A directory is entered only when
    `preVisitDirectory` says CONTINUE, and then `postVisitDirectory` follows its
    entries unless the walk was terminated; SKIP_SIBLINGS from `postVisitDirectory`
    means nothing.
   */
  function WalkNode<E>(v: Visitor<E>, n: Node, p: Path): (w: Walked<E>)
    decreases n, 1
  {
    match n
    case Unreadable(_) => Walked([], AfterEntry(v.visitFileFailed(p)))
    case File(_, _) =>
      var s := v.visitFile(p);
      Walked(s.effects, AfterEntry(s.result))
    case Dir(_, cs) =>
      var s := v.preVisitDirectory(p, cs);
      if s.result == Continue then
        var inner := WalkChildren(v, cs, p);
        if inner.control == Stop then Walked(s.effects + inner.effects, Stop)
        else Walked(s.effects + inner.effects, if v.postVisitDirectory(p) == Terminate then Stop else Proceed)
      else Walked(s.effects, AfterEntry(s.result))
  }

  /**
    Walks the entries `cs` of the directory at `p` in order. An entry that asks to
    skip its siblings ends the listing, after which the directory's own walk goes
    on normally; TERMINATE ends everything.
   */
  function WalkChildren<E>(v: Visitor<E>, cs: seq<Node>, p: Path): (w: Walked<E>)
    ensures w.control != SkipRest
    decreases cs, 0
  {
    if cs == [] then Walked([], Proceed)
    else
      var first := WalkNode(v, cs[0], p + [cs[0].name]);
      if first.control == Proceed then
        var rest := WalkChildren(v, cs[1..], p);
        Walked(first.effects + rest.effects, rest.control)
      else Walked(first.effects, if first.control == Stop then Stop else Proceed)
  }

  /** `Files.walkFileTree(start, v)` over the tree `root` found at `start`. */
  function WalkFileTree<E>(v: Visitor<E>, start: Path, root: Node): seq<E>
  {
    WalkNode(v, root, start).effects
  }

  /** Every effect of walking a directory's entries is an effect of walking one of them. */
  lemma {:induction false} EffectComesFromChild<E>(v: Visitor<E>, cs: seq<Node>, p: Path, e: E)
    requires e in WalkChildren(v, cs, p).effects
    ensures exists k :: 0 <= k < |cs| && e in WalkNode(v, cs[k], p + [cs[k].name]).effects
  {
    var first := WalkNode(v, cs[0], p + [cs[0].name]);
    if e !in first.effects {
      EffectComesFromChild(v, cs[1..], p, e);
      var k :| 0 <= k < |cs[1..]| && e in WalkNode(v, cs[1..][k], p + [cs[1..][k].name]).effects;
      assert cs[1..][k] == cs[k + 1];
    }
  }

  /**
    When the entries before the `k`-th all let the walk proceed, every effect of
    walking the `k`-th entry is an effect of walking the directory's entries.
   */
  lemma {:induction false} ChildEffectsReachParent<E>(v: Visitor<E>, cs: seq<Node>, p: Path, k: nat, e: E)
    requires k < |cs|
    requires forall j :: 0 <= j < k ==> WalkNode(v, cs[j], p + [cs[j].name]).control == Proceed
    requires e in WalkNode(v, cs[k], p + [cs[k].name]).effects
    ensures e in WalkChildren(v, cs, p).effects
  {
    if k > 0 {
      assert WalkNode(v, cs[0], p + [cs[0].name]).control == Proceed;
      forall j | 0 <= j < k - 1
        ensures WalkNode(v, cs[1..][j], p + [cs[1..][j].name]).control == Proceed
      {
        assert cs[1..][j] == cs[j + 1];
      }
      assert cs[1..][k - 1] == cs[k];
      ChildEffectsReachParent(v, cs[1..], p, k - 1, e);
    }
  }
}
