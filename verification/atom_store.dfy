/**
 * The atom store's union-find over atom indexes, as the term store uses it.
 *
 * The store keeps, for every atom index, the index of the root of its set (a fully
 * compressed forest). union(a, b) moves every atom of b's set under a's root, so the root
 * of the first argument survives.
 */
module AtomStores {

  /** Every entry names a root, and a root is its own root. */
  ghost predicate IsForest(roots: seq<nat>) {
    forall a :: 0 <= a < |roots| ==> roots[a] < |roots| && roots[roots[a]] == roots[a]
  }

  /** The roots after the set rooted at `from` is merged into the set rooted at `to`. */
  function Relabel(roots: seq<nat>, from: nat, to: nat): (r: seq<nat>)
    ensures |r| == |roots|
    ensures forall a :: 0 <= a < |roots| ==> r[a] == if roots[a] == from then to else roots[a]
  {
    seq(|roots|, i requires 0 <= i < |roots| => if roots[i] == from then to else roots[i])
  }

  /**
   * Sets only ever merge: every atom's new root is the new root of its old root, so atoms
   * that shared a root before still share one after.
   */
  ghost predicate Coarsens(before: seq<nat>, after: seq<nat>) {
    && |after| == |before|
    && forall x {:trigger before[x]} :: 0 <= x < |before| ==> before[x] < |after| && after[x] == after[before[x]]
  }

  lemma CoarsensTransitive(a: seq<nat>, b: seq<nat>, c: seq<nat>)
    requires Coarsens(a, b) && Coarsens(b, c)
    ensures Coarsens(a, c)
  {
    forall x | 0 <= x < |a|
      ensures c[x] == c[a[x]]
    {
      assert c[x] == c[b[x]];
      assert c[a[x]] == c[b[a[x]]];
    }
  }

  class AtomStore {
    /** roots[a] is the union-find root of atom a. */
    var roots: seq<nat>

    ghost predicate Valid()
      reads this
    {
      IsForest(roots)
    }

    /** Every atom starts alone in its own set. */
    constructor (numAtoms: nat)
      ensures Valid()
      ensures |roots| == numAtoms
      ensures forall a :: 0 <= a < numAtoms ==> roots[a] == a
    {
      roots := seq(numAtoms, i => i);
    }

    /** The root of the set holding atom. */
    function FindAtomRoot(atom: nat): (root: nat)
      reads this
      requires Valid() && atom < |roots|
      ensures root < |roots| && roots[root] == root
      ensures roots[atom] == root
    {
      roots[atom]
    }

    /** Joins the sets of a and b under the root of a. */
    method Union(a: nat, b: nat)
      requires Valid() && a < |roots| && b < |roots|
      modifies this
      ensures Valid()
      ensures roots == Relabel(old(roots), old(roots[b]), old(roots[a]))
      ensures Coarsens(old(roots), roots)
      ensures forall x, y :: 0 <= x < |roots| && 0 <= y < |roots| ==>
                (roots[x] == roots[y] <==>
                   old(roots[x]) == old(roots[y])
                   || (old(roots[x]) in {old(roots[a]), old(roots[b])}
                       && old(roots[y]) in {old(roots[a]), old(roots[b])}))
    {
      var ra, rb := roots[a], roots[b];
      roots := Relabel(roots, rb, ra);
    }
  }
}
