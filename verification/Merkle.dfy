/**
 The Merkle tree of section 2.1 of RFC 6962, and the incremental tree that the
 auditor keeps in `download_position` and `verified_position`.

 A hash is a free datatype: two hashes are equal only when they were computed the
 same way, which is what collision resistance and domain separation provide.
 */
module Merkle {

  datatype Hash =
    | HashNothing
    | HashLeaf(data: string)
    | HashChildren(left: Hash, right: Hash)

  // ---- Powers of two ----

  predicate IsPow2(k: nat) {
    k == 1 || (k > 1 && k % 2 == 0 && IsPow2(k / 2))
  }

  /** The largest power of two that is at most n. */
  function Top(n: nat): (k: nat)
    requires n >= 1
    ensures IsPow2(k) && k <= n < 2 * k
  {
    if n == 1 then 1 else 2 * Top(n / 2)
  }

  /** The number of one bits of n. */
  function Ones(n: nat): nat {
    if n == 0 then 0 else n % 2 + Ones(n / 2)
  }

  lemma {:induction false} Pow2Gap(a: nat, b: nat)
    requires IsPow2(a) && IsPow2(b) && a < b
    ensures 2 * a <= b
  {
    if a > 1 {
      Pow2Gap(a / 2, b / 2);
    }
  }

  lemma TopUnique(n: nat, k: nat)
    requires n >= 1 && IsPow2(k) && k <= n < 2 * k
    ensures Top(n) == k
  {
    if Top(n) < k {
      Pow2Gap(Top(n), k);
    } else if k < Top(n) {
      Pow2Gap(k, Top(n));
    }
  }

  lemma {:induction false} OnesWithoutTop(n: nat)
    requires n >= 1
    ensures Ones(n) == 1 + Ones(n - Top(n))
  {
    if n > 1 {
      OnesWithoutTop(n / 2);
      assert (n - Top(n)) / 2 == n / 2 - Top(n / 2);
    }
  }

  // ---- The tree of RFC 6962 ----

  /** The Merkle Tree Hash of an ordered list of leaf data. */
  function Mth(d: seq<string>): Hash
    decreases |d|
  {
    if d == [] then HashNothing
    else if |d| == 1 then HashLeaf(d[0])
    else
      var k := Top(|d| - 1);
      HashChildren(Mth(d[..k]), Mth(d[k..]))
  }

  /** A root determines the list it was computed from, and so its length. */
  lemma {:induction false} MthInjective(a: seq<string>, b: seq<string>)
    requires Mth(a) == Mth(b)
    ensures a == b
    decreases |a|
  {
    if |a| >= 2 && |b| >= 2 {
      var i, j := Top(|a| - 1), Top(|b| - 1);
      MthInjective(a[..i], b[..j]);
      MthInjective(a[i..], b[j..]);
      assert a == a[..i] + a[i..] && b == b[..j] + b[j..];
    }
  }

  // ---- The incremental tree ----

  /** Hashes the last two nodes together until `target` nodes are left. */
  function Collapse(nodes: seq<Hash>, target: nat): seq<Hash>
    requires target >= 1
    decreases |nodes|
  {
    if |nodes| <= target then nodes
    else
      var n := |nodes| - 2;
      Collapse(nodes[..n] + [HashChildren(nodes[n], nodes[n + 1])], target)
  }

  /** Hashes all nodes together, starting from the last one. */
  function RootOf(nodes: seq<Hash>): Hash {
    if nodes == [] then HashNothing
    else if |nodes| == 1 then nodes[0]
    else HashChildren(nodes[0], RootOf(nodes[1..]))
  }

  datatype CollapsedTree = CollapsedTree(nodes: seq<Hash>, size: nat) {

    function Add(leaf: Hash): CollapsedTree {
      OnesPositive(size + 1);
      CollapsedTree(Collapse(nodes + [leaf], Ones(size + 1)), size + 1)
    }

    function CalculateRoot(): Hash {
      RootOf(nodes)
    }
  }

  lemma {:induction false} OnesPositive(n: nat)
    requires n >= 1
    ensures Ones(n) >= 1
  {
    OnesWithoutTop(n);
  }

  const EMPTY_TREE := CollapsedTree([], 0)

  /** The perfect subtrees that the binary form of |d| cuts d into, largest first. */
  function Peaks(d: seq<string>): seq<Hash>
    decreases |d|
  {
    if d == [] then []
    else
      var k := Top(|d|);
      [Mth(d[..k])] + Peaks(d[k..])
  }

  /** What the incremental tree holds once the leaves of d were added. */
  function Collapsed(d: seq<string>): CollapsedTree {
    CollapsedTree(Peaks(d), |d|)
  }

  lemma {:induction false} OnePeakPerBit(d: seq<string>)
    ensures |Peaks(d)| == Ones(|d|)
    decreases |d|
  {
    if d != [] {
      OnesWithoutTop(|d|);
      OnePeakPerBit(d[Top(|d|)..]);
    }
  }

  /** The root of the incremental tree is the root of RFC 6962. */
  lemma {:induction false} RootIsMth(d: seq<string>)
    ensures Collapsed(d).CalculateRoot() == Mth(d)
    decreases |d|
  {
    if d != [] {
      var k := Top(|d|);
      var nodes := Peaks(d);
      assert nodes[1..] == Peaks(d[k..]);
      RootIsMth(d[k..]);
      if k < |d| {
        TopUnique(|d| - 1, k);
      } else {
        assert d[..k] == d;
      }
    }
  }

  lemma {:induction false} CollapseKeepsFirst(first: Hash, nodes: seq<Hash>, target: nat)
    requires target >= 1
    ensures Collapse([first] + nodes, target + 1) == [first] + Collapse(nodes, target)
    decreases |nodes|
  {
    if |nodes| > target {
      var n := |nodes| - 2;
      var last := HashChildren(nodes[n], nodes[n + 1]);
      assert ([first] + nodes)[..n + 1] + [last] == [first] + (nodes[..n] + [last]);
      CollapseKeepsFirst(first, nodes[..n] + [last], target);
    }
  }

  lemma {:induction false} CollapseToRoot(nodes: seq<Hash>)
    requires nodes != []
    ensures Collapse(nodes, 1) == [RootOf(nodes)]
    decreases |nodes|
  {
    if |nodes| > 1 {
      var n := |nodes| - 2;
      var shorter := nodes[..n] + [HashChildren(nodes[n], nodes[n + 1])];
      CollapseToRoot(shorter);
      RootOfJoined(nodes);
    }
  }

  lemma {:induction false} RootOfJoined(nodes: seq<Hash>)
    requires |nodes| > 1
    ensures var n := |nodes| - 2;
            RootOf(nodes) == RootOf(nodes[..n] + [HashChildren(nodes[n], nodes[n + 1])])
    decreases |nodes|
  {
    var n := |nodes| - 2;
    var shorter := nodes[..n] + [HashChildren(nodes[n], nodes[n + 1])];
    if n > 0 {
      RootOfJoined(nodes[1..]);
      assert shorter[1..] == nodes[1..][..n - 1] + [HashChildren(nodes[n], nodes[n + 1])];
    }
  }

  lemma {:induction false} PeaksSplit(d: seq<string>, k: nat)
    requires IsPow2(k) && k <= |d| < 2 * k
    ensures Peaks(d) == [Mth(d[..k])] + Peaks(d[k..])
  {
    TopUnique(|d|, k);
  }

  lemma {:induction false} MthSplit(e: seq<string>, k: nat)
    requires |e| >= 2 && IsPow2(k) && k <= |e| - 1 < 2 * k
    ensures Mth(e) == HashChildren(Mth(e[..k]), Mth(e[k..]))
  {
    TopUnique(|e| - 1, k);
  }

  /** A new last leaf changes nothing to the left of the split. */
  lemma {:induction false} MthSplitAdded(d: seq<string>, x: string, k: nat)
    requires IsPow2(k) && k <= |d| < 2 * k
    ensures Mth(d + [x]) == HashChildren(Mth(d[..k]), Mth(d[k..] + [x]))
  {
    MthSplit(d + [x], k);
    assert (d + [x])[..k] == d[..k];
    assert (d + [x])[k..] == d[k..] + [x];
  }

  lemma {:induction false} PeaksSplitAdded(d: seq<string>, x: string, k: nat)
    requires IsPow2(k) && k <= |d| < |d| + 1 < 2 * k
    ensures Peaks(d + [x]) == [Mth(d[..k])] + Peaks(d[k..] + [x])
  {
    PeaksSplit(d + [x], k);
    assert (d + [x])[..k] == d[..k];
    assert (d + [x])[k..] == d[k..] + [x];
  }

  lemma RootOfCons(first: Hash, rest: seq<Hash>)
    requires rest != []
    ensures RootOf([first] + rest) == HashChildren(first, RootOf(rest))
  {
    assert ([first] + rest)[1..] == rest;
  }

  /** Adding the leaf that completes a perfect tree: everything is hashed together. */
  lemma {:induction false} RootOfCompleted(d: seq<string>, x: string)
    requires IsPow2(|d| + 1)
    ensures RootOf(Peaks(d) + [HashLeaf(x)]) == Mth(d + [x])
    decreases |d|
  {
    if d != [] {
      var k := Top(|d|);
      Pow2Gap(k, |d| + 1);
      PeaksSplit(d, k);
      MthSplitAdded(d, x, k);
      RootOfCompleted(d[k..], x);
      RootOfCons(Mth(d[..k]), Peaks(d[k..]) + [HashLeaf(x)]);
      assert Peaks(d) + [HashLeaf(x)] == [Mth(d[..k])] + (Peaks(d[k..]) + [HashLeaf(x)]);
    }
  }

  lemma AddCompletes(d: seq<string>, x: string)
    requires IsPow2(|d| + 1)
    ensures Collapse(Peaks(d) + [HashLeaf(x)], 1) == Peaks(d + [x])
    ensures Ones(|d| + 1) == 1
  {
    var n, e := |d| + 1, d + [x];
    RootOfCompleted(d, x);
    CollapseToRoot(Peaks(d) + [HashLeaf(x)]);
    TopUnique(n, n);
    OnesWithoutTop(n);
    PeaksSplit(e, n);
    assert e[..n] == e && Peaks(e[n..]) == [];
  }

  lemma {:induction false} OnesBelow(n: nat, k: nat)
    requires IsPow2(k) && k <= n < n + 1 < 2 * k
    ensures Ones(n + 1) == Ones(n - k + 1) + 1
    ensures Ones(n - k + 1) >= 1
  {
    TopUnique(n + 1, k);
    OnesWithoutTop(n + 1);
    OnesPositive(n - k + 1);
  }

  /** The nodes after adding one leaf are the peaks of the longer list. */
  lemma {:induction false} CollapseRefines(d: seq<string>, x: string, ones: nat)
    requires ones == Ones(|d| + 1) >= 1
    ensures Collapse(Peaks(d) + [HashLeaf(x)], ones) == Peaks(d + [x])
    decreases |d|
  {
    hide Collapse, Peaks, Mth, Ones;
    if IsPow2(|d| + 1) {
      AddCompletes(d, x);
    } else {
      var k := Top(|d|);
      assert |d| + 1 < 2 * k;
      OnesBelow(|d|, k);
      CollapseBelow(d, x, k, ones - 1);
    }
  }

  lemma {:induction false} CollapseBelow(d: seq<string>, x: string, k: nat, ones: nat)
    requires IsPow2(k) && k <= |d| < |d| + 1 < 2 * k
    requires ones == Ones(|d| - k + 1) >= 1
    ensures Collapse(Peaks(d) + [HashLeaf(x)], ones + 1) == Peaks(d + [x])
    decreases |d|, 0
  {
    var first, nodes := Mth(d[..k]), Peaks(d[k..]) + [HashLeaf(x)];
    CollapseRefines(d[k..], x, ones);
    CollapseKeepsFirst(first, nodes, ones);
    PeaksSplit(d, k);
    PeaksSplitAdded(d, x, k);
    assert Peaks(d) + [HashLeaf(x)] == [first] + nodes;
  }

  /** Adding one leaf to the tree of d gives the tree of d and that leaf. */
  lemma AddRefines(d: seq<string>, x: string)
    ensures Collapsed(d).Add(HashLeaf(x)) == Collapsed(d + [x])
  {
    OnesPositive(|d| + 1);
    CollapseRefines(d, x, Ones(|d| + 1));
  }

  function AddAll(t: CollapsedTree, leaves: seq<string>): CollapsedTree
    decreases |leaves|
  {
    if leaves == [] then t else AddAll(t.Add(HashLeaf(leaves[0])), leaves[1..])
  }

  /** A tree stored after the leaves of d and loaded again continues as if never stored. */
  lemma {:induction false} ResumeRefines(d: seq<string>, more: seq<string>)
    ensures AddAll(Collapsed(d), more) == Collapsed(d + more)
    ensures AddAll(Collapsed(d), more).CalculateRoot() == Mth(d + more)
    decreases |more|
  {
    if more == [] {
      assert d + more == d;
    } else {
      AddRefines(d, more[0]);
      ResumeRefines(d + [more[0]], more[1..]);
      assert d + [more[0]] + more[1..] == d + more;
    }
    RootIsMth(d + more);
  }

  /** Two equal trees were built from the same leaves. */
  lemma CollapsedInjective(a: seq<string>, b: seq<string>)
    requires Collapsed(a) == Collapsed(b)
    ensures a == b
  {
    RootIsMth(a);
    RootIsMth(b);
    MthInjective(a, b);
  }
}
