/**
 * The parent chain of a build-agent file path, as the classic upload strategy
 * sees it. A path's parent is what `getParent` returns: a path one directory
 * up, or nothing at a filesystem root. Paths are acyclic, which the model
 * states as a natural-number depth that every step to a parent decreases.
 */
module FilePaths {

  datatype Option<+T> = None | Some(value: T)

  /** A filesystem seen through `getParent`; `depth` only serves termination. */
  datatype Hierarchy<!P> = Hierarchy(parent: P -> Option<P>, depth: P -> nat)

  /** Every step to a parent goes strictly closer to a root. */
  ghost predicate Valid<P(!new)>(h: Hierarchy<P>)
  {
    forall p :: h.parent(p).Some? ==> h.depth(h.parent(p).value) < h.depth(p)
  }

  /** A root is a path whose `getParent` is null. */
  predicate IsRoot<P>(h: Hierarchy<P>, p: P)
  {
    h.parent(p).None?
  }

  /** The path reached from `p` by `k` calls of `getParent`, if none of them returned null. */
  function Ancestor<P>(h: Hierarchy<P>, p: P, k: nat): (a: Option<P>)
    decreases k
  {
    if k == 0 then Some(p)
    else match h.parent(p)
      case None => None
      case Some(q) => Ancestor(h, q, k - 1)
  }

  /** `q` is reachable from `p` by repeated `getParent`. */
  ghost predicate Reaches<P>(h: Hierarchy<P>, p: P, q: P)
  {
    exists k: nat :: Ancestor(h, p, k) == Some(q)
  }

  /** The root above `p`: follow parents until there is none. */
  function RootOf<P(!new)>(h: Hierarchy<P>, p: P): (r: P)
    requires Valid(h)
    ensures IsRoot(h, r)
    decreases h.depth(p)
  {
    match h.parent(p)
    case None => p
    case Some(q) => RootOf(h, q)
  }

  /** One more step up from an ancestor is an ancestor one step further away. */
  lemma {:induction false} AncestorStep<P>(h: Hierarchy<P>, p: P, k: nat, q: P)
    requires Ancestor(h, p, k) == Some(q) && h.parent(q).Some?
    ensures Ancestor(h, p, k + 1) == h.parent(q)
    decreases k
  {
    if k > 0 {
      AncestorStep(h, h.parent(p).value, k - 1, q);
    }
  }

  /** The root of `p` is reachable from `p`. */
  lemma {:induction false} RootOfReachable<P(!new)>(h: Hierarchy<P>, p: P)
    requires Valid(h)
    ensures Reaches(h, p, RootOf(h, p))
    decreases h.depth(p)
  {
    match h.parent(p)
    case None =>
      assert Ancestor(h, p, 0) == Some(p);
    case Some(q) =>
      RootOfReachable(h, q);
      var k: nat :| Ancestor(h, q, k) == Some(RootOf(h, q));
      assert Ancestor(h, p, k + 1) == Some(RootOf(h, p));
  }

  /** The root of `p` is the only parentless path reachable from `p`. */
  lemma {:induction false} RootOfUnique<P(!new)>(h: Hierarchy<P>, p: P, k: nat, q: P)
    requires Valid(h)
    requires Ancestor(h, p, k) == Some(q) && IsRoot(h, q)
    ensures q == RootOf(h, p)
    decreases k
  {
    if k > 0 {
      RootOfUnique(h, h.parent(p).value, k - 1, q);
    }
  }

  /** Every ancestor of `p` lies below the same root as `p`. */
  lemma {:induction false} RootOfAncestor<P(!new)>(h: Hierarchy<P>, p: P, k: nat)
    requires Valid(h) && Ancestor(h, p, k).Some?
    ensures RootOf(h, Ancestor(h, p, k).value) == RootOf(h, p)
    decreases k
  {
    if k > 0 {
      RootOfAncestor(h, h.parent(p).value, k - 1);
    }
  }

  /** A path is its own root exactly when it has no parent; so taking the root twice changes nothing. */
  lemma RootOfFixedPoint<P(!new)>(h: Hierarchy<P>, p: P)
    requires Valid(h)
    ensures RootOf(h, p) == p <==> IsRoot(h, p)
    ensures RootOf(h, RootOf(h, p)) == RootOf(h, p)
  {
  }

  /**
   * A concrete hierarchy: an absolute path as its list of directory names,
   * the parent drops the last name, and the filesystem root "/" is [].
   */
  function ComponentParent(p: seq<string>): (parent: Option<seq<string>>)
  {
    if |p| == 0 then None else Some(p[..|p| - 1])
  }

  function Components(): (h: Hierarchy<seq<string>>)
  {
    Hierarchy(ComponentParent, p => |p|)
  }

  /** Dropping the last directory name shortens the path. */
  lemma ComponentsValid()
    ensures Valid(Components())
  {
  }

  /** In the component hierarchy every path's root is "/". */
  lemma {:induction false} ComponentsRoot(p: seq<string>)
    ensures Valid(Components())
    ensures RootOf(Components(), p) == []
    decreases |p|
  {
    ComponentsValid();
    if |p| > 0 {
      ComponentsRoot(p[..|p| - 1]);
    }
  }
}
