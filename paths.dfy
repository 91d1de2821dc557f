/**
  Paths as sequences of name elements, with the two java.nio.file.Path operations the
  copier uses to mirror a source tree under a target root: `relativize` and `resolve`.
  Paths are taken to be normalised (no "." or ".." elements of their own).
 */
module Paths {

  type Path = seq<string>

  /** The name element that `relativize` emits to step out of a directory. */
  const ParentElement := ".."

  /** `Path.getFileName()`: the last name element; the empty path has none. */
  function FileName(p: Path): string
  {
    if p == [] then "" else p[|p| - 1]
  }

  /** `k` copies of the parent element. */
  function Ups(k: nat): (r: Path)
    ensures |r| == k
    ensures forall i :: 0 <= i < k ==> r[i] == ParentElement
  {
    if k == 0 then [] else [ParentElement] + Ups(k - 1)
  }

  /**
    `base.relativize(p)`: the path that leads from `base` to `p`, climbing out of
    the part of `base` that `p` does not share.
   */
  function Relativize(base: Path, p: Path): (rel: Path)
    ensures base <= p ==> rel == p[|base|..]
  {
    if base == [] then p
    else if p != [] && p[0] == base[0] then Relativize(base[1..], p[1..])
    else Ups(|base|) + p
  }

  /** `base.resolve(rel)` for a relative `rel`: `rel` appended to `base`. */
  function Resolve(base: Path, rel: Path): (r: Path)
    ensures base <= r && r[|base|..] == rel
  {
    base + rel
  }

  /** Resolving a relative path and relativizing it again gives that relative path back. */
  lemma RelativizeResolve(base: Path, rel: Path)
    ensures Relativize(base, Resolve(base, rel)) == rel
  {
  }

  /** Relativizing a descendant and resolving it again gives the descendant back. */
  lemma ResolveRelativize(base: Path, p: Path)
    requires base <= p
    ensures Resolve(base, Relativize(base, p)) == p
  {
  }

  /**
    Mirroring: a path re-anchored from `source` to `target` lies, relative to
    `target`, exactly where the original lies relative to `source`.
   */
  lemma MirrorKeepsRelativePosition(source: Path, target: Path, p: Path)
    ensures Relativize(target, Resolve(target, Relativize(source, p))) == Relativize(source, p)
  {
    RelativizeResolve(target, Relativize(source, p));
  }

  /** Mirroring never maps two distinct descendants of `source` to the same target path. */
  lemma MirrorIsInjective(source: Path, target: Path, p: Path, q: Path)
    requires source <= p && source <= q
    requires Resolve(target, Relativize(source, p)) == Resolve(target, Relativize(source, q))
    ensures p == q
  {
    assert p[|source|..] == q[|source|..];
    assert p == source + p[|source|..];
    assert q == source + q[|source|..];
  }
}
