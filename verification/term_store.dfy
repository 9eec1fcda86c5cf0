/**
 * The in-memory term store: an append-only list of terms plus a map from union-find
 * root to the bucket of terms in that connected component.
 *
 * The store keeps the buckets a partition of the term list: taken together (as a
 * multiset) they hold exactly the stored terms, every bucket key is a current root, and
 * every atom of every term in a bucket has that key as its root.
 */
module TermStores {
  import opened Wrappers
  import opened AtomStores

  /** A reasoner term, reduced to the atom indexes it references. */
  datatype ReasonerTerm = ReasonerTerm(atomIndexes: seq<nat>)

  /** Component id (root atom index) to the terms of that component. */
  type Components = map<nat, seq<ReasonerTerm>>

  datatype StoreError = IndexOutOfBounds(index: int)

  // ---------------------------------------------------------------------------
  // The buckets taken together

  ghost function PickKey(m: Components): (k: nat)
    requires m != map[]
    ensures k in m
  {
    var k :| k in m; k
  }

  /** All bucket contents together. */
  ghost function Flatten(m: Components): multiset<ReasonerTerm>
    decreases |m|
  {
    if m == map[] then multiset{}
    else
      var k := PickKey(m);
      assert (m - {k}).Keys == m.Keys - {k};
      multiset(m[k]) + Flatten(m - {k})
  }

  /** The sum of the bucket sizes. */
  ghost function TotalSize(m: Components): nat
    decreases |m|
  {
    if m == map[] then 0
    else
      var k := PickKey(m);
      assert (m - {k}).Keys == m.Keys - {k};
      |m[k]| + TotalSize(m - {k})
  }

  /** Flatten may take the buckets in any order. */
  lemma {:induction false} FlattenRemove(m: Components, k: nat)
    requires k in m
    ensures Flatten(m) == multiset(m[k]) + Flatten(m - {k})
    decreases |m|
  {
    var p := PickKey(m);
    if p != k {
      var mp, mk := m - {p}, m - {k};
      assert mp.Keys == m.Keys - {p};
      assert Flatten(m) == multiset(m[p]) + Flatten(mp);
      FlattenRemove(mp, k);
      assert mk.Keys == m.Keys - {k};
      FlattenRemove(mk, p);
      assert mp - {k} == mk - {p};
    }
  }

  lemma {:induction false} FlattenSize(m: Components)
    ensures |Flatten(m)| == TotalSize(m)
    decreases |m|
  {
    if m != map[] {
      var k := PickKey(m);
      assert (m - {k}).Keys == m.Keys - {k};
      FlattenSize(m - {k});
    }
  }

  lemma {:induction false} FlattenMember(m: Components, t: ReasonerTerm)
    ensures t in Flatten(m) <==> exists k :: k in m && t in m[k]
    decreases |m|
  {
    if m != map[] {
      var k := PickKey(m);
      assert (m - {k}).Keys == m.Keys - {k};
      FlattenMember(m - {k}, t);
      if t in Flatten(m) && t !in m[k] {
        var k' :| k' in m - {k} && t in (m - {k})[k'];
        assert k' in m && t in m[k'];
      }
      if k' :| k' in m && t in m[k'] {
        if k' != k {
          assert k' in m - {k} && t in (m - {k})[k'];
        }
      }
    }
  }

  /** Replacing one bucket: the others stay as they were. */
  lemma FlattenUpdate(m: Components, k: nat, v: seq<ReasonerTerm>)
    ensures Flatten(m[k := v]) == multiset(v) + Flatten(m - {k})
  {
    FlattenRemove(m[k := v], k);
    assert m[k := v] - {k} == m - {k};
  }

  /** Moving one bucket onto the end of another keeps the buckets' joint contents. */
  lemma MergePreservesFlatten(m: Components, into: nat, from: nat)
    requires into in m && from in m && into != from
    ensures Flatten((m - {from})[into := m[into] + m[from]]) == Flatten(m)
  {
    var m' := m - {from};
    FlattenRemove(m, from);
    FlattenRemove(m', into);
    FlattenUpdate(m', into, m[into] + m[from]);
  }

  // ---------------------------------------------------------------------------
  // Component consistency

  /** The bucket of r, empty when r has none. */
  function Bucket(m: Components, r: nat): seq<ReasonerTerm> {
    if r in m then m[r] else []
  }

  /** Every atom of t is a known atom whose root is r; t has at least one atom. */
  ghost predicate InComponent(t: ReasonerTerm, roots: seq<nat>, r: nat) {
    && |t.atomIndexes| > 0
    && forall j :: 0 <= j < |t.atomIndexes| ==>
         t.atomIndexes[j] < |roots| && roots[t.atomIndexes[j]] == r
  }

  ghost predicate KeysAreRoots(m: Components, roots: seq<nat>) {
    forall r :: r in m ==> r < |roots| && roots[r] == r
  }

  ghost predicate BucketsConnected(m: Components, roots: seq<nat>) {
    forall r, t :: r in m && t in m[r] ==> InComponent(t, roots, r)
  }

  /** Like BucketsConnected, except that `term` (still being unified) need only sit in bucket r0. */
  ghost predicate BucketsConnectedExcept(m: Components, roots: seq<nat>, term: ReasonerTerm, r0: nat) {
    forall r, t :: r in m && t in m[r] ==>
      (t == term ==> r == r0) && (t != term ==> InComponent(t, roots, r))
  }

  /** Appending a term to one bucket adds exactly that term to the buckets' joint contents. */
  lemma FilingKeepsFlatten(m: Components, root: nat, term: ReasonerTerm)
    ensures Flatten(m[root := Bucket(m, root) + [term]]) == Flatten(m) + multiset{term}
  {
    var before := Bucket(m, root);
    FlattenUpdate(m, root, before + [term]);
    if root in m {
      FlattenRemove(m, root);
    } else {
      assert m - {root} == m;
    }
  }

  /** Filing a term under the root of its first atom keeps the other terms connected. */
  lemma FilingKeepsConnected(m: Components, roots: seq<nat>, root: nat, term: ReasonerTerm)
    requires BucketsConnected(m, roots)
    requires |term.atomIndexes| > 0 && term.atomIndexes[0] < |roots| && roots[term.atomIndexes[0]] == root
    ensures BucketsConnectedExcept(m[root := Bucket(m, root) + [term]], roots, term, root)
  {
    var m' := m[root := Bucket(m, root) + [term]];
    forall r, t | r in m' && t in m'[r]
      ensures (t == term ==> r == root)
      ensures (t != term ==> InComponent(t, roots, r))
    {
      if r == root && t != term {
        assert t in Bucket(m, root);
      }
    }
  }

  /** Once the term itself is connected, the exception is no longer needed. */
  lemma ExceptFinished(m: Components, roots: seq<nat>, term: ReasonerTerm, r0: nat)
    requires BucketsConnectedExcept(m, roots, term, r0)
    requires InComponent(term, roots, r0)
    ensures BucketsConnected(m, roots)
  {
  }

  /**
   * The buckets after the set `from` joins the set `into`: from's bucket, if it has one and
   * is a different set, is moved onto the end of into's bucket.
   */
  function MergeBuckets(m: Components, into: nat, from: nat): Components
    requires into in m
  {
    if from == into || from !in m then m else (m - {from})[into := m[into] + m[from]]
  }

  /** One unification step keeps the union-find a forest and every bucket key a root. */
  lemma MergeStepKeepsKeys(m: Components, roots: seq<nat>, into: nat, atom: nat)
    requires IsForest(roots) && atom < |roots| && into in m && KeysAreRoots(m, roots)
    ensures IsForest(Relabel(roots, roots[atom], into))
    ensures KeysAreRoots(MergeBuckets(m, into, roots[atom]), Relabel(roots, roots[atom], into))
    ensures into in MergeBuckets(m, into, roots[atom])
  {
    RelabelKeepsForest(roots, roots[atom], into);
  }

  /** One unification step keeps every term other than the one being added connected. */
  lemma MergeStepKeepsBuckets(m: Components, roots: seq<nat>, term: ReasonerTerm, into: nat, atom: nat)
    requires IsForest(roots) && atom < |roots| && into in m
    requires KeysAreRoots(m, roots) && BucketsConnectedExcept(m, roots, term, into)
    ensures BucketsConnectedExcept(MergeBuckets(m, into, roots[atom]), Relabel(roots, roots[atom], into), term, into)
  {
    var from := roots[atom];
    if from == into {
      assert Relabel(roots, from, into) == roots;
    } else if from !in m {
      RelabelKeepsBuckets(m, roots, term, from, into);
    } else {
      MergeKeepsBuckets(m, roots, term, into, from);
    }
  }

  /**
   * One unification step keeps the terms (as a multiset), only grows into's bucket at its
   * end, leaves every other remaining bucket as it was, and only merges sets.
   */
  lemma MergeStepShape(m: Components, roots: seq<nat>, into: nat, atom: nat)
    requires IsForest(roots) && atom < |roots| && into in m && into < |roots| && roots[into] == into
    ensures var m' := MergeBuckets(m, into, roots[atom]);
            && Flatten(m') == Flatten(m)
            && into in m' && m[into] <= m'[into]
            && (forall r :: r in m' && r != into ==> r in m && m'[r] == m[r])
    ensures var roots' := Relabel(roots, roots[atom], into);
            && roots'[atom] == into
            && Coarsens(roots, roots')
            && (forall x :: 0 <= x < |roots| && roots[x] == into ==> roots'[x] == into)
  {
    var from := roots[atom];
    if from != into && from in m {
      MergePreservesFlatten(m, into, from);
    }
  }

  /** Relabelling a set that has no bucket keeps every bucket connected. */
  lemma RelabelKeepsBuckets(m: Components, roots: seq<nat>, term: ReasonerTerm, from: nat, into: nat)
    requires IsForest(roots) && into in m && from !in m
    requires KeysAreRoots(m, roots) && BucketsConnectedExcept(m, roots, term, into)
    ensures KeysAreRoots(m, Relabel(roots, from, into))
    ensures BucketsConnectedExcept(m, Relabel(roots, from, into), term, into)
  {
    forall r, t | r in m && t in m[r] && t != term
      ensures InComponent(t, Relabel(roots, from, into), r)
    {
      RelabelKeepsComponent(t, roots, r, from, into);
    }
  }

  /**
   * Relabelling the set `from` into `into` and moving its bucket onto the end of `into`'s
   * bucket keeps every bucket connected.
   */
  lemma MergeKeepsBuckets(m: Components, roots: seq<nat>, term: ReasonerTerm, into: nat, from: nat)
    requires IsForest(roots) && into in m && from in m && into != from
    requires KeysAreRoots(m, roots) && BucketsConnectedExcept(m, roots, term, into)
    ensures var m' := (m - {from})[into := m[into] + m[from]];
            && KeysAreRoots(m', Relabel(roots, from, into))
            && BucketsConnectedExcept(m', Relabel(roots, from, into), term, into)
  {
    var m' := (m - {from})[into := m[into] + m[from]];
    var roots' := Relabel(roots, from, into);
    forall r, t | r in m' && t in m'[r]
      ensures (t == term ==> r == into)
      ensures (t != term ==> InComponent(t, roots', r))
    {
      if r == into {
        if t in m[from] {
          RelabelKeepsComponent(t, roots, from, from, into);
        } else {
          assert t in m[into];
          if t != term {
            RelabelKeepsComponent(t, roots, r, from, into);
          }
        }
      } else {
        assert t in m[r];
        RelabelKeepsComponent(t, roots, r, from, into);
      }
    }
  }

  /**
   * The buckets and roots after unifying each of `atoms`, in order, into the set rooted at
   * `into` (add's loop from its second atom on).
   */
  function UnifyAll(m: Components, roots: seq<nat>, into: nat, atoms: seq<nat>): (r: (Components, seq<nat>))
    requires IsForest(roots) && KeysAreRoots(m, roots) && into in m
    requires forall j :: 0 <= j < |atoms| ==> atoms[j] < |roots|
    ensures IsForest(r.1) && |r.1| == |roots|
    ensures KeysAreRoots(r.0, r.1) && into in r.0
    decreases |atoms|
  {
    if atoms == [] then (m, roots)
    else
      var prev := UnifyAll(m, roots, into, atoms[..|atoms| - 1]);
      var atom := atoms[|atoms| - 1];
      MergeStepKeepsKeys(prev.0, prev.1, into, atom);
      (MergeBuckets(prev.0, into, prev.1[atom]), Relabel(prev.1, prev.1[atom], into))
  }

  /**
   * Unifying keeps every term except the one being added connected, keeps the buckets'
   * joint contents, only grows into's bucket at its end and leaves every other remaining
   * bucket as it was.
   */
  lemma {:induction false} UnifyAllKeepsBuckets(m: Components, roots: seq<nat>, term: ReasonerTerm, into: nat, atoms: seq<nat>)
    requires IsForest(roots) && KeysAreRoots(m, roots) && into in m
    requires forall j :: 0 <= j < |atoms| ==> atoms[j] < |roots|
    requires BucketsConnectedExcept(m, roots, term, into)
    ensures var r := UnifyAll(m, roots, into, atoms);
            && BucketsConnectedExcept(r.0, r.1, term, into)
            && Flatten(r.0) == Flatten(m)
            && m[into] <= r.0[into]
            && (forall k :: k in r.0 && k != into ==> k in m && r.0[k] == m[k])
    decreases |atoms|
  {
    if atoms != [] {
      var init := atoms[..|atoms| - 1];
      var prev := UnifyAll(m, roots, into, init);
      var atom := atoms[|atoms| - 1];
      UnifyAllKeepsBuckets(m, roots, term, into, init);
      MergeStepKeepsBuckets(prev.0, prev.1, term, into, atom);
      MergeStepShape(prev.0, prev.1, into, atom);
    }
  }

  /** Unifying only merges sets. */
  lemma {:induction false} UnifyAllCoarsens(m: Components, roots: seq<nat>, into: nat, atoms: seq<nat>)
    requires IsForest(roots) && KeysAreRoots(m, roots) && into in m
    requires forall j :: 0 <= j < |atoms| ==> atoms[j] < |roots|
    ensures Coarsens(roots, UnifyAll(m, roots, into, atoms).1)
    decreases |atoms|
  {
    if atoms == [] {
      assert Coarsens(roots, roots);
    } else {
      var init := atoms[..|atoms| - 1];
      var prev := UnifyAll(m, roots, into, init);
      UnifyAllCoarsens(m, roots, into, init);
      MergeStepShape(prev.0, prev.1, into, atoms[|atoms| - 1]);
      CoarsensTransitive(roots, prev.1, UnifyAll(m, roots, into, atoms).1);
    }
  }

  /** Unifying leaves every atom of the set of `into` under `into`. */
  lemma {:induction false} UnifyAllKeepsRoot(m: Components, roots: seq<nat>, into: nat, atoms: seq<nat>, x: nat)
    requires IsForest(roots) && KeysAreRoots(m, roots) && into in m
    requires forall j :: 0 <= j < |atoms| ==> atoms[j] < |roots|
    requires x < |roots| && roots[x] == into
    ensures UnifyAll(m, roots, into, atoms).1[x] == into
    decreases |atoms|
  {
    if atoms != [] {
      var init := atoms[..|atoms| - 1];
      var prev := UnifyAll(m, roots, into, init);
      UnifyAllKeepsRoot(m, roots, into, init, x);
      MergeStepShape(prev.0, prev.1, into, atoms[|atoms| - 1]);
    }
  }

  /** Unifying puts every one of `atoms` under `into`. */
  lemma {:induction false} UnifyAllJoinsAtoms(m: Components, roots: seq<nat>, into: nat, atoms: seq<nat>, j: nat)
    requires IsForest(roots) && KeysAreRoots(m, roots) && into in m
    requires forall j :: 0 <= j < |atoms| ==> atoms[j] < |roots|
    requires j < |atoms|
    ensures UnifyAll(m, roots, into, atoms).1[atoms[j]] == into
    decreases |atoms|
  {
    var init := atoms[..|atoms| - 1];
    var prev := UnifyAll(m, roots, into, init);
    var atom := atoms[|atoms| - 1];
    MergeStepShape(prev.0, prev.1, into, atom);
    if j < |atoms| - 1 {
      assert atoms[j] == init[j];
      UnifyAllJoinsAtoms(m, roots, into, init, j);
      assert prev.1[atoms[j]] == into;
    }
  }

  /** The roots, before unifying, of the sets that hold `atoms`. */
  ghost function AtomRoots(roots: seq<nat>, atoms: seq<nat>): set<nat> {
    set j | 0 <= j < |atoms| && atoms[j] < |roots| :: roots[atoms[j]]
  }

  lemma AtomRootsSnoc(roots: seq<nat>, atoms: seq<nat>)
    requires atoms != [] && atoms[|atoms| - 1] < |roots|
    ensures AtomRoots(roots, atoms)
            == AtomRoots(roots, atoms[..|atoms| - 1]) + {roots[atoms[|atoms| - 1]]}
  {
    var init := atoms[..|atoms| - 1];
    forall y | y in AtomRoots(roots, atoms)
      ensures y in AtomRoots(roots, init) + {roots[atoms[|atoms| - 1]]}
    {
      var j :| 0 <= j < |atoms| && atoms[j] < |roots| && y == roots[atoms[j]];
      if j < |atoms| - 1 {
        assert init[j] == atoms[j];
      }
    }
    forall y | y in AtomRoots(roots, init)
      ensures y in AtomRoots(roots, atoms)
    {
      var j :| 0 <= j < |init| && init[j] < |roots| && y == roots[init[j]];
      assert atoms[j] == init[j];
    }
  }

  lemma AtomRootsCons(roots: seq<nat>, atoms: seq<nat>)
    requires atoms != [] && atoms[0] < |roots|
    ensures AtomRoots(roots, atoms) == {roots[atoms[0]]} + AtomRoots(roots, atoms[1..])
  {
    var rest := atoms[1..];
    forall y | y in AtomRoots(roots, atoms)
      ensures y == roots[atoms[0]] || y in AtomRoots(roots, rest)
    {
      var j :| 0 <= j < |atoms| && atoms[j] < |roots| && y == roots[atoms[j]];
      if j > 0 {
        assert rest[j - 1] == atoms[j];
      }
    }
    forall y | y in AtomRoots(roots, rest)
      ensures y in AtomRoots(roots, atoms)
    {
      var j :| 0 <= j < |rest| && rest[j] < |roots| && y == roots[rest[j]];
      assert rest[j] == atoms[j + 1];
    }
  }

  /**
   * Unifying moves exactly the sets of `into` and of `atoms` under `into`: every other atom
   * keeps its root.
   */
  lemma {:induction false} UnifyAllRoots(m: Components, roots: seq<nat>, into: nat, atoms: seq<nat>, x: nat)
    requires IsForest(roots) && KeysAreRoots(m, roots) && into in m
    requires forall j :: 0 <= j < |atoms| ==> atoms[j] < |roots|
    requires x < |roots|
    ensures UnifyAll(m, roots, into, atoms).1[x]
            == if roots[x] == into || roots[x] in AtomRoots(roots, atoms) then into else roots[x]
    decreases |atoms|
  {
    if atoms != [] {
      var init := atoms[..|atoms| - 1];
      var last := atoms[|atoms| - 1];
      UnifyAllRoots(m, roots, into, init, x);
      UnifyAllRoots(m, roots, into, init, last);
      AtomRootsSnoc(roots, atoms);
    }
  }

  /**
   * Unifying removes the bucket of every joined set other than `into`'s and leaves every
   * other bucket where and as it was.
   */
  lemma {:induction false} UnifyAllBuckets(m: Components, roots: seq<nat>, into: nat, atoms: seq<nat>, k: nat)
    requires IsForest(roots) && KeysAreRoots(m, roots) && into in m
    requires forall j :: 0 <= j < |atoms| ==> atoms[j] < |roots|
    requires k != into
    ensures k in AtomRoots(roots, atoms) ==> k !in UnifyAll(m, roots, into, atoms).0
    ensures k !in AtomRoots(roots, atoms) ==>
              (k in UnifyAll(m, roots, into, atoms).0 <==> k in m)
              && (k in m ==> UnifyAll(m, roots, into, atoms).0[k] == m[k])
    decreases |atoms|
  {
    if atoms != [] {
      var init := atoms[..|atoms| - 1];
      var last := atoms[|atoms| - 1];
      var prev := UnifyAll(m, roots, into, init);
      UnifyAllBuckets(m, roots, into, init, k);
      UnifyAllRoots(m, roots, into, init, last);
      AtomRootsSnoc(roots, atoms);
      MergeBucketsKeepsOthers(prev.0, into, prev.1[last], k);
    }
  }

  /** A merge step removes the merged bucket and leaves every bucket but `into`'s as it was. */
  lemma MergeBucketsKeepsOthers(m: Components, into: nat, from: nat, k: nat)
    requires into in m && k != into
    ensures k == from ==> k !in MergeBuckets(m, into, from)
    ensures k != from ==> (k in MergeBuckets(m, into, from) <==> k in m)
                          && (k in m ==> MergeBuckets(m, into, from)[k] == m[k])
  {
  }

  /**
   * After add's loop over a term filed under `into` (the root of its first atom), every
   * bucket is connected including the term's own, the joint contents are unchanged, the
   * term's bucket has only grown at its end, the other remaining buckets are as they were
   * and sets have only merged.
   */
  lemma UnifyTermKeepsStore(m: Components, roots: seq<nat>, term: ReasonerTerm, into: nat)
    requires IsForest(roots) && KeysAreRoots(m, roots) && into in m
    requires |term.atomIndexes| > 0
    requires forall j :: 0 <= j < |term.atomIndexes| ==> term.atomIndexes[j] < |roots|
    requires roots[term.atomIndexes[0]] == into
    requires BucketsConnectedExcept(m, roots, term, into)
    ensures var r := UnifyAll(m, roots, into, term.atomIndexes[1..]);
            && BucketsConnected(r.0, r.1)
            && InComponent(term, r.1, into)
            && Flatten(r.0) == Flatten(m)
            && m[into] <= r.0[into]
            && (forall k :: k in r.0 && k != into ==> k in m && r.0[k] == m[k])
            && Coarsens(roots, r.1)
  {
    var rest := term.atomIndexes[1..];
    var r := UnifyAll(m, roots, into, rest);
    UnifyAllKeepsBuckets(m, roots, term, into, rest);
    UnifyAllCoarsens(m, roots, into, rest);
    UnifyTermJoined(m, roots, term, into);
    ExceptFinished(r.0, r.1, term, into);
  }

  /**
   * (m', roots') is what add makes of (m, roots): the term filed at the end of the bucket of
   * its first atom's root, then add's loop over its further atoms.
   */
  ghost predicate AddedByUnifying(m: Components, roots: seq<nat>, m': Components, roots': seq<nat>, term: ReasonerTerm) {
    && IsForest(roots) && KeysAreRoots(m, roots)
    && |term.atomIndexes| > 0
    && (forall j :: 0 <= j < |term.atomIndexes| ==> term.atomIndexes[j] < |roots|)
    && var root := roots[term.atomIndexes[0]];
       KeysAreRoots(m[root := Bucket(m, root) + [term]], roots)
       && (m', roots') == UnifyAll(m[root := Bucket(m, root) + [term]], roots, root, term.atomIndexes[1..])
  }

  /**
   * The sets whose roots are in `joined` now all have root `into`, every other atom keeps its
   * root, and the only buckets besides `into`'s are the old ones of sets not joined.
   */
  ghost predicate JoinsExactly(m: Components, roots: seq<nat>, m': Components, roots': seq<nat>,
                               into: nat, joined: set<nat>) {
    && |roots'| == |roots|
    && (forall x :: 0 <= x < |roots| ==> roots'[x] == if roots[x] in joined then into else roots[x])
    && (forall k :: k != into ==> (k in m' <==> k in m && k !in joined))
  }

  /**
   * add's loop moves exactly the sets of the term's atoms under `into` (the root of its first
   * atom) and removes exactly their buckets other than `into`'s; every other set keeps its
   * root and every other bucket survives.
   */
  lemma UnifyTermJoinsExactly(m: Components, roots: seq<nat>, term: ReasonerTerm, into: nat)
    requires IsForest(roots) && KeysAreRoots(m, roots) && into in m
    requires |term.atomIndexes| > 0
    requires forall j :: 0 <= j < |term.atomIndexes| ==> term.atomIndexes[j] < |roots|
    requires roots[term.atomIndexes[0]] == into
    ensures var r := UnifyAll(m, roots, into, term.atomIndexes[1..]);
            JoinsExactly(m, roots, r.0, r.1, into, AtomRoots(roots, term.atomIndexes))
  {
    var rest := term.atomIndexes[1..];
    var joined := AtomRoots(roots, term.atomIndexes);
    AtomRootsCons(roots, term.atomIndexes);
    forall x | 0 <= x < |roots|
      ensures UnifyAll(m, roots, into, rest).1[x] == if roots[x] in joined then into else roots[x]
    {
      UnifyAllRoots(m, roots, into, rest, x);
    }
    forall k | k != into
      ensures k in UnifyAll(m, roots, into, rest).0 <==> k in m && k !in joined
    {
      UnifyAllBuckets(m, roots, into, rest, k);
    }
  }

  /** After add's loop every atom of the term is under `into`. */
  lemma UnifyTermJoined(m: Components, roots: seq<nat>, term: ReasonerTerm, into: nat)
    requires IsForest(roots) && KeysAreRoots(m, roots) && into in m
    requires |term.atomIndexes| > 0
    requires forall j :: 0 <= j < |term.atomIndexes| ==> term.atomIndexes[j] < |roots|
    requires roots[term.atomIndexes[0]] == into
    ensures InComponent(term, UnifyAll(m, roots, into, term.atomIndexes[1..]).1, into)
  {
    var rest := term.atomIndexes[1..];
    var after := UnifyAll(m, roots, into, rest).1;
    UnifyAllKeepsRoot(m, roots, into, rest, term.atomIndexes[0]);
    forall j | 1 <= j < |term.atomIndexes|
      ensures after[term.atomIndexes[j]] == into
    {
      assert term.atomIndexes[j] == rest[j - 1];
      UnifyAllJoinsAtoms(m, roots, into, rest, j - 1);
    }
  }

  lemma RelabelKeepsComponent(t: ReasonerTerm, roots: seq<nat>, r: nat, from: nat, to: nat)
    requires InComponent(t, roots, r)
    ensures r != from ==> InComponent(t, Relabel(roots, from, to), r)
    ensures r == from ==> InComponent(t, Relabel(roots, from, to), to)
  {
  }

  lemma RelabelKeepsForest(roots: seq<nat>, from: nat, to: nat)
    requires IsForest(roots) && to < |roots| && roots[to] == to
    ensures IsForest(Relabel(roots, from, to))
  {
  }

  // ---------------------------------------------------------------------------
  // The store

  class SimpleTermStore {
    var allTerms: seq<ReasonerTerm>
    var connectedComponents: Components
    const atomStore: AtomStore

    ghost predicate Valid()
      reads this, atomStore
    {
      && atomStore.Valid()
      && Flatten(connectedComponents) == multiset(allTerms)
      && KeysAreRoots(connectedComponents, atomStore.roots)
      && BucketsConnected(connectedComponents, atomStore.roots)
    }

    constructor (atomStore: AtomStore)
      requires atomStore.Valid()
      ensures Valid()
      ensures this.atomStore == atomStore
      ensures allTerms == [] && connectedComponents == map[]
    {
      this.atomStore := atomStore;
      allTerms := [];
      connectedComponents := map[];
    }

    /**
     * One step of add's unification loop: joins the set of atomIndex into the term's
     * component and, when the other root has a bucket, moves that bucket onto the end of
     * the term's bucket.
     */
    method UnifyAtom(termRootIndex: nat, atomIndex: nat)
      requires atomStore.Valid()
      requires atomIndex < |atomStore.roots|
      requires termRootIndex in connectedComponents
      requires KeysAreRoots(connectedComponents, atomStore.roots)
      modifies this`connectedComponents, atomStore
      ensures atomStore.roots == Relabel(old(atomStore.roots), old(atomStore.roots)[atomIndex], termRootIndex)
      ensures connectedComponents ==
                MergeBuckets(old(connectedComponents), termRootIndex, old(atomStore.roots)[atomIndex])
    {
      var nextAtomRootIndex := atomStore.FindAtomRoot(atomIndex);
      if nextAtomRootIndex == termRootIndex {
        // Already in the same component.
        assert atomStore.roots == Relabel(atomStore.roots, termRootIndex, termRootIndex);
        return;
      }

      atomStore.Union(termRootIndex, nextAtomRootIndex);

      // Merge the components.
      if nextAtomRootIndex !in connectedComponents {
        // No component for the next atom.
        return;
      }

      ghost var m0: Components := connectedComponents;
      connectedComponents := connectedComponents[termRootIndex :=
        connectedComponents[termRootIndex] + connectedComponents[nextAtomRootIndex]];
      connectedComponents := connectedComponents - {nextAtomRootIndex};
      assert connectedComponents ==
        (m0 - {nextAtomRootIndex})[termRootIndex := m0[termRootIndex] + m0[nextAtomRootIndex]];
    }

    /** Appends term to the bucket of root, creating the bucket if there is none. */
    method FileInBucket(root: nat, term: ReasonerTerm)
      requires atomStore.Valid()
      requires |term.atomIndexes| > 0 && term.atomIndexes[0] < |atomStore.roots|
      requires atomStore.roots[term.atomIndexes[0]] == root
      requires KeysAreRoots(connectedComponents, atomStore.roots)
      requires BucketsConnected(connectedComponents, atomStore.roots)
      modifies this`connectedComponents
      ensures connectedComponents == old(connectedComponents)[root := Bucket(old(connectedComponents), root) + [term]]
      ensures Flatten(connectedComponents) == Flatten(old(connectedComponents)) + multiset{term}
      ensures KeysAreRoots(connectedComponents, atomStore.roots)
      ensures BucketsConnectedExcept(connectedComponents, atomStore.roots, term, root)
    {
      ghost var m0: Components := connectedComponents;
      connectedComponents := connectedComponents[root := Bucket(connectedComponents, root) + [term]];
      FilingKeepsFlatten(m0, root, term);
      FilingKeepsConnected(m0, atomStore.roots, root, term);
    }

    /**
     * Appends the term, files it in the bucket of its first atom's root (creating the bucket
     * if needed), then unifies the sets of its other atoms with that root, merging their
     * buckets into the term's bucket.
     */
    method Add(term: ReasonerTerm) returns (added: int)
      requires Valid()
      requires |term.atomIndexes| > 0
      requires forall j :: 0 <= j < |term.atomIndexes| ==> term.atomIndexes[j] < |atomStore.roots|
      modifies this, atomStore
      ensures Valid()
      ensures added == 1
      ensures allTerms == old(allTerms) + [term]
      ensures |atomStore.roots| == old(|atomStore.roots|)
      ensures var root := old(atomStore.roots)[term.atomIndexes[0]];
              && root in connectedComponents
              && Bucket(old(connectedComponents), root) + [term] <= connectedComponents[root]
              && InComponent(term, atomStore.roots, root)
              && (forall r :: r in connectedComponents && r != root ==>
                    r in old(connectedComponents) && connectedComponents[r] == old(connectedComponents)[r])
      ensures Coarsens(old(atomStore.roots), atomStore.roots)
      ensures AddedByUnifying(old(connectedComponents), old(atomStore.roots), connectedComponents, atomStore.roots, term)
      ensures JoinsExactly(old(connectedComponents), old(atomStore.roots), connectedComponents, atomStore.roots,
                           old(atomStore.roots)[term.atomIndexes[0]], AtomRoots(old(atomStore.roots), term.atomIndexes))
    {
      allTerms := allTerms + [term];

      // Add to the connected component map.
      var termRootIndex := atomStore.FindAtomRoot(term.atomIndexes[0]);
      FileInBucket(termRootIndex, term);

      // Unify the components of the atoms in this term.
      UnifyTermKeepsStore(connectedComponents, atomStore.roots, term, termRootIndex);
      UnifyTermJoinsExactly(connectedComponents, atomStore.roots, term, termRootIndex);
      UnifyTermAtoms(termRootIndex, term);
      added := 1;
    }

    /** add's unification loop: brings every further atom of term into the set rooted at termRootIndex. */
    method UnifyTermAtoms(termRootIndex: nat, term: ReasonerTerm)
      requires atomStore.Valid()
      requires |term.atomIndexes| > 0
      requires forall j :: 0 <= j < |term.atomIndexes| ==> term.atomIndexes[j] < |atomStore.roots|
      requires termRootIndex in connectedComponents
      requires KeysAreRoots(connectedComponents, atomStore.roots)
      modifies this`connectedComponents, atomStore
      ensures (connectedComponents, atomStore.roots)
              == UnifyAll(old(connectedComponents), old(atomStore.roots), termRootIndex, term.atomIndexes[1..])
    {
      var i := 1;
      while i < |term.atomIndexes|
        invariant 1 <= i <= |term.atomIndexes|
        invariant (connectedComponents, atomStore.roots)
                  == UnifyAll(old(connectedComponents), old(atomStore.roots), termRootIndex, term.atomIndexes[1..i])
      {
        assert term.atomIndexes[1..i + 1][..i - 1] == term.atomIndexes[1..i];
        UnifyAtom(termRootIndex, term.atomIndexes[i]);
        i := i + 1;
      }
      assert term.atomIndexes[1..i] == term.atomIndexes[1..];
    }

    /** Drops every term and every bucket; the atom store's sets are left as they are. */
    method Clear()
      requires Valid()
      modifies this`allTerms, this`connectedComponents
      ensures Valid()
      ensures allTerms == [] && connectedComponents == map[]
    {
      allTerms := [];
      connectedComponents := map[];
    }

    /** get(index) as written: the long index is narrowed to int before the list lookup. */
    method Get(index: int) returns (r: Result<ReasonerTerm, StoreError>)
      requires MinLong <= index <= MaxLong
      ensures r == TruncatedLookup(allTerms, index)
    {
      var i := Int32Cast(index);
      if 0 <= i < |allTerms| {
        r := Success(allTerms[i]);
      } else {
        r := Failure(IndexOutOfBounds(i));
      }
    }

    /** get(index) with the range check its assertion intends. */
    method GetChecked(index: int) returns (r: Result<ReasonerTerm, StoreError>)
      requires MinLong <= index <= MaxLong
      ensures r == CheckedLookup(allTerms, index)
      ensures r.Success? <==> 0 <= index < |allTerms|
      ensures r.Success? ==> r.value == allTerms[index]
    {
      if 0 <= index < |allTerms| {
        r := Success(allTerms[index]);
      } else {
        r := Failure(IndexOutOfBounds(index));
      }
    }

    method Size() returns (n: int)
      ensures n == |allTerms|
    {
      n := |allTerms|;
    }

    /** The terms in the order iteration visits them. */
    method Iterator() returns (visits: seq<ReasonerTerm>)
      ensures visits == allTerms
    {
      visits := allTerms;
    }

    /** The component ids, each once, in the map's (unspecified) order. */
    method GetConnectedComponentKeys() returns (keys: seq<nat>)
      ensures forall k :: k in keys <==> k in connectedComponents
      ensures forall i, j :: 0 <= i < j < |keys| ==> keys[i] != keys[j]
      ensures |keys| == |connectedComponents|
    {
      keys := [];
      var rest := connectedComponents.Keys;
      while rest != {}
        invariant rest <= connectedComponents.Keys
        invariant forall k :: k in keys <==> k in connectedComponents.Keys && k !in rest
        invariant forall i, j :: 0 <= i < j < |keys| ==> keys[i] != keys[j]
        invariant |keys| + |rest| == |connectedComponents.Keys|
        decreases rest
      {
        var k :| k in rest;
        keys := keys + [k];
        rest := rest - {k};
      }
    }
  }

  // ---------------------------------------------------------------------------
  // Lookup by index

  const MinLong: int := -0x8000_0000_0000_0000
  const MaxLong: int := 0x7FFF_FFFF_FFFF_FFFF

  /** Java's narrowing of a long to an int: keep the low 32 bits, two's complement. */
  function Int32Cast(x: int): (r: int)
    ensures -0x8000_0000 <= r < 0x8000_0000
    ensures (r - x) % 0x1_0000_0000 == 0
  {
    (x + 0x8000_0000) % 0x1_0000_0000 - 0x8000_0000
  }

  function TruncatedLookup(terms: seq<ReasonerTerm>, index: int): Result<ReasonerTerm, StoreError> {
    var i := Int32Cast(index);
    if 0 <= i < |terms| then Success(terms[i]) else Failure(IndexOutOfBounds(i))
  }

  function CheckedLookup(terms: seq<ReasonerTerm>, index: int): (r: Result<ReasonerTerm, StoreError>)
    ensures r.Success? <==> 0 <= index < |terms|
    ensures r.Success? ==> r.value == terms[index]
  {
    if 0 <= index < |terms| then Success(terms[index]) else Failure(IndexOutOfBounds(index))
  }

  /**
   * The narrowing lookup returns the first term for the out-of-range indexes 2^32 and -2^32;
   * the second of these also satisfies index <= Integer.MAX_VALUE.
   */
  lemma TruncatedLookupWrapsAround(terms: seq<ReasonerTerm>)
    requires 1 <= |terms| < 0x8000_0000
    ensures TruncatedLookup(terms, 0x1_0000_0000) == Success(terms[0])
    ensures TruncatedLookup(terms, -0x1_0000_0000) == Success(terms[0])
    ensures CheckedLookup(terms, 0x1_0000_0000) == Failure(IndexOutOfBounds(0x1_0000_0000))
    ensures CheckedLookup(terms, -0x1_0000_0000) == Failure(IndexOutOfBounds(-0x1_0000_0000))
  {
  }

  /** For every index that fits an int the two lookups agree. */
  lemma LookupsAgreeOnIntRange(terms: seq<ReasonerTerm>, index: int)
    requires -0x8000_0000 <= index < 0x8000_0000
    ensures TruncatedLookup(terms, index) == CheckedLookup(terms, index)
  {
  }

  // ---------------------------------------------------------------------------
  // The partition

  /**
   * Every stored term sits in exactly one bucket, the one keyed by the root of its atoms,
   * and that bucket holds it as many times as it was added.
   */
  lemma TermsPartitionedByComponent(store: SimpleTermStore)
    requires store.Valid()
    ensures forall i :: 0 <= i < |store.allTerms| ==>
              exists r :: r in store.connectedComponents
                && store.allTerms[i] in store.connectedComponents[r]
                && InComponent(store.allTerms[i], store.atomStore.roots, r)
                && multiset(store.connectedComponents[r])[store.allTerms[i]]
                   == multiset(store.allTerms)[store.allTerms[i]]
                && (forall r' :: r' in store.connectedComponents && r' != r ==>
                      store.allTerms[i] !in store.connectedComponents[r'])
  {
    var m := store.connectedComponents;
    var roots := store.atomStore.roots;
    forall i | 0 <= i < |store.allTerms|
      ensures exists r :: r in m
                && store.allTerms[i] in m[r]
                && InComponent(store.allTerms[i], roots, r)
                && multiset(m[r])[store.allTerms[i]] == multiset(store.allTerms)[store.allTerms[i]]
                && (forall r' :: r' in m && r' != r ==> store.allTerms[i] !in m[r'])
    {
      var t := store.allTerms[i];
      assert t in multiset(store.allTerms);
      FlattenMember(m, t);
      var r :| r in m && t in m[r];
      assert InComponent(t, roots, r);
      forall r' | r' in m && t in m[r']
        ensures r' == r
      {
        assert roots[t.atomIndexes[0]] == r';
      }
      FlattenRemove(m, r);
      FlattenMember(m - {r}, t);
    }
  }

  /** The bucket sizes add up to the number of stored terms. */
  lemma BucketSizesSumToSize(store: SimpleTermStore)
    requires store.Valid()
    ensures TotalSize(store.connectedComponents) == |store.allTerms|
  {
    FlattenSize(store.connectedComponents);
  }

  /** After clear and two adds, get and iteration see the terms in insertion order. */
  method InsertionOrder(store: SimpleTermStore, a: ReasonerTerm, b: ReasonerTerm)
    returns (visits: seq<ReasonerTerm>, first: Result<ReasonerTerm, StoreError>)
    requires store.Valid()
    requires |a.atomIndexes| > 0 && |b.atomIndexes| > 0
    requires forall j :: 0 <= j < |a.atomIndexes| ==> a.atomIndexes[j] < |store.atomStore.roots|
    requires forall j :: 0 <= j < |b.atomIndexes| ==> b.atomIndexes[j] < |store.atomStore.roots|
    modifies store, store.atomStore
    ensures store.Valid()
    ensures visits == [a, b] && first == Success(a)
  {
    store.Clear();
    var _ := store.Add(a);
    assert store.allTerms == [a];
    visits, first := AddSecondThenList(store, a, b);
  }

  /** With only `a` stored, adding `b` puts it second, after `a`. */
  method AddSecondThenList(store: SimpleTermStore, a: ReasonerTerm, b: ReasonerTerm)
    returns (visits: seq<ReasonerTerm>, first: Result<ReasonerTerm, StoreError>)
    requires store.Valid() && store.allTerms == [a]
    requires |b.atomIndexes| > 0
    requires forall j :: 0 <= j < |b.atomIndexes| ==> b.atomIndexes[j] < |store.atomStore.roots|
    modifies store, store.atomStore
    ensures store.Valid()
    ensures visits == [a, b] && first == Success(a)
  {
    var _ := store.Add(b);
    assert store.allTerms == [a, b];
    visits := store.Iterator();
    first := store.GetChecked(0);
  }
}
