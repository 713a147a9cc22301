/** The Merkle tree of a block (src/core.cpp): built into one flat vector,
    branches taken out of it, and branches checked against the root.  Hashing
    is any function. */
module Merkle {

  type Hash = nat
  type Tx = nat
  type Pair = (Hash, Hash) -> Hash

  function Min(a: int, b: int): int { if a < b then a else b }

  /** The sibling of an index: `nIndex ^ 1`. */
  function Sibling(i: nat): nat { if i % 2 == 0 then i + 1 else i - 1 }

  // ---------------------------------------------------------------- the tree by levels

  /** The next level: neighbours hashed in pairs, an odd last one with itself. */
  function Up(pair: Pair, s: seq<Hash>): (r: seq<Hash>)
    ensures |r| == (|s| + 1) / 2
  {
    seq((|s| + 1) / 2, k requires 0 <= k < (|s| + 1) / 2 => pair(s[2 * k], s[Min(2 * k + 1, |s| - 1)]))
  }

  lemma UpOver(pair: Pair, s: seq<Hash>, i: nat)
    requires i < |s| && |s| > 1
    ensures i / 2 < |Up(pair, s)| && 0 <= Min(Sibling(i), |s| - 1) < |s|
    ensures Up(pair, s)[i / 2] ==
      if i % 2 == 1 then pair(s[Min(Sibling(i), |s| - 1)], s[i]) else pair(s[i], s[Min(Sibling(i), |s| - 1)])
  {
  }

  function Root(pair: Pair, s: seq<Hash>): Hash
    decreases |s|
  {
    if |s| == 0 then 0 else if |s| == 1 then s[0] else Root(pair, Up(pair, s))
  }

  /** All levels in one vector. */
  function Flat(pair: Pair, s: seq<Hash>): seq<Hash>
    decreases |s|
  {
    if |s| <= 1 then s else s + Flat(pair, Up(pair, s))
  }

  function Branch(pair: Pair, s: seq<Hash>, i: nat): seq<Hash>
    decreases |s|
  {
    if |s| <= 1 then [] else [s[Min(Sibling(i), |s| - 1)]] + Branch(pair, Up(pair, s), i / 2)
  }

  function Fold(pair: Pair, h: Hash, branch: seq<Hash>, i: int): Hash
    decreases |branch|
  {
    if branch == [] then h
    else Fold(pair, if i % 2 == 1 then pair(branch[0], h) else pair(h, branch[0]), branch[1..], i / 2)
  }

  /** How many levels there are above n leaves. */
  function Depth(n: nat): nat {
    if n <= 1 then 0 else 1 + Depth((n + 1) / 2)
  }

  // ---------------------------------------------------------------- properties

  /** The branch of a leaf leads to the root. */
  lemma {:induction false} BranchLeadsToRoot(pair: Pair, s: seq<Hash>, i: nat)
    requires i < |s|
    ensures Fold(pair, s[i], Branch(pair, s, i), i) == Root(pair, s)
    ensures |Branch(pair, s, i)| == Depth(|s|)
    decreases |s|
  {
    hide Up, Sibling, Min;
    if |s| > 1 {
      UpOver(pair, s, i);
      BranchLeadsToRoot(pair, Up(pair, s), i / 2);
      assert Branch(pair, s, i)[1..] == Branch(pair, Up(pair, s), i / 2);
    }
  }

  // ---------------------------------------------------------------- two openings of one root

  /** The pair hashed at step j of following a branch. */
  function PairAt(pair: Pair, h: Hash, branch: seq<Hash>, i: int, j: nat): (Hash, Hash)
    requires j < |branch|
    decreases j
  {
    var (l, r) := if i % 2 == 1 then (branch[0], h) else (h, branch[0]);
    if j == 0 then (l, r) else PairAt(pair, pair(l, r), branch[1..], i / 2, j - 1)
  }

  function HashOf(pair: Pair, p: (Hash, Hash)): Hash { pair(p.0, p.1) }

  /** Two different values or branches of one length that lead to the same hash
      from the same index hash two different pairs to one value on the way. */
  lemma {:induction false} OpeningsCollide(pair: Pair, h: Hash, b: seq<Hash>, h': Hash, b': seq<Hash>, i: int)
      returns (j: nat)
    requires |b| == |b'| && (h != h' || b != b') && Fold(pair, h, b, i) == Fold(pair, h', b', i)
    ensures j < |b| && PairAt(pair, h, b, i, j) != PairAt(pair, h', b', i, j)
    ensures HashOf(pair, PairAt(pair, h, b, i, j)) == HashOf(pair, PairAt(pair, h', b', i, j))
    decreases |b|
  {
    if b == [] {
      assert false;
    } else {
      var p, p' := PairAt(pair, h, b, i, 0), PairAt(pair, h', b', i, 0);
      if p != p' && HashOf(pair, p) == HashOf(pair, p') {
        j := 0;
      } else {
        assert b == [b[0]] + b[1..] && b' == [b'[0]] + b'[1..];
        j := OpeningsCollide(pair, HashOf(pair, p), b[1..], HashOf(pair, p'), b'[1..], i / 2);
        j := j + 1;
      }
    }
  }

  /** Anything but a leaf and its branch that leads to the root from the leaf's
      index collides with them on the way. */
  lemma ForgeryCollides(pair: Pair, s: seq<Hash>, i: nat, h: Hash, branch: seq<Hash>) returns (j: nat)
    requires i < |s| && |branch| == Depth(|s|) && Fold(pair, h, branch, i) == Root(pair, s)
    requires h != s[i] || branch != Branch(pair, s, i)
    ensures j < |branch| == |Branch(pair, s, i)|
    ensures PairAt(pair, h, branch, i, j) != PairAt(pair, s[i], Branch(pair, s, i), i, j)
    ensures HashOf(pair, PairAt(pair, h, branch, i, j)) == HashOf(pair, PairAt(pair, s[i], Branch(pair, s, i), i, j))
  {
    BranchLeadsToRoot(pair, s, i);
    j := OpeningsCollide(pair, h, branch, s[i], Branch(pair, s, i), i);
  }

  ghost predicate Injective(pair: Pair) {
    forall p, q :: HashOf(pair, p) == HashOf(pair, q) ==> p == q
  }

  /** So if no two pairs of hashes collide, nothing else leads there. */
  lemma BranchIsUnique(pair: Pair, s: seq<Hash>, i: nat, h: Hash, branch: seq<Hash>)
    requires Injective(pair) && i < |s| && |branch| == Depth(|s|)
    requires Fold(pair, h, branch, i) == Root(pair, s)
    ensures h == s[i] && branch == Branch(pair, s, i)
  {
    if h != s[i] || branch != Branch(pair, s, i) {
      var _ := ForgeryCollides(pair, s, i, h, branch);
    }
  }

  // ---------------------------------------------------------------- two lists with one root

  function PairOf(s: seq<Hash>, k: nat): (Hash, Hash)
    requires 2 * k < |s|
  {
    (s[2 * k], s[Min(2 * k + 1, |s| - 1)])
  }

  /** The level l steps above the leaves. */
  function Level(pair: Pair, s: seq<Hash>, l: nat): seq<Hash>
    decreases l
  {
    if l == 0 then s else Level(pair, Up(pair, s), l - 1)
  }

  lemma UpIs(pair: Pair, s: seq<Hash>, k: nat)
    requires 2 * k < |s|
    ensures k < |Up(pair, s)| && Up(pair, s)[k] == HashOf(pair, PairOf(s, k))
  {
  }

  /** Two different lists of one length with one root hash two different pairs to
      one value at some level. */
  lemma {:induction false} ListsCollide(pair: Pair, s: seq<Hash>, t: seq<Hash>) returns (l: nat, k: nat)
    requires |s| == |t| && s != t && Root(pair, s) == Root(pair, t)
    ensures 2 * k < |Level(pair, s, l)| == |Level(pair, t, l)|
    ensures PairOf(Level(pair, s, l), k) != PairOf(Level(pair, t, l), k)
    ensures HashOf(pair, PairOf(Level(pair, s, l), k)) == HashOf(pair, PairOf(Level(pair, t, l), k))
    decreases |s|
  {
    hide Up, PairOf, HashOf;
    if Up(pair, s) == Up(pair, t) {
      k := DifferentPair(s, t);
      l := 0;
      UpIs(pair, s, k);
      UpIs(pair, t, k);
    } else {
      AtMostOne(pair, s, t);
      l, k := ListsCollide(pair, Up(pair, s), Up(pair, t));
      l := l + 1;
    }
  }

  lemma AtMostOne(pair: Pair, s: seq<Hash>, t: seq<Hash>)
    requires |s| == |t| && s != t && Root(pair, s) == Root(pair, t)
    ensures |s| > 1
  {
  }

  lemma DifferentPair(s: seq<Hash>, t: seq<Hash>) returns (k: nat)
    requires |s| == |t| && s != t
    ensures 2 * k < |s| && PairOf(s, k) != PairOf(t, k)
  {
    var i :| 0 <= i < |s| && s[i] != t[i];
    k := i / 2;
  }

  /** If no pairs collide, the root and the number of leaves determine the leaves. */
  lemma RootDeterminesLeaves(pair: Pair, s: seq<Hash>, t: seq<Hash>)
    requires Injective(pair) && |s| == |t| && Root(pair, s) == Root(pair, t)
    ensures s == t
  {
    if s != t {
      var _, _ := ListsCollide(pair, s, t);
    }
  }

  /** The leaf at place i of the tree filled up to a power of two: at every level
      an index past the end is the last one. */
  function Place(n: nat, i: nat): nat
    requires n > 0
  {
    if n == 1 then 0 else Min(2 * Place((n + 1) / 2, i / 2) + i % 2, n - 1)
  }

  lemma {:induction false} PlaceFits(n: nat, i: nat)
    requires n > 0
    ensures Place(n, i) < n
  {
    if n > 1 {
      PlaceFits((n + 1) / 2, i / 2);
    }
  }

  function Pow2(n: nat): nat { if n == 0 then 1 else 2 * Pow2(n - 1) }

  function PaddedLeaf(s: seq<Hash>, i: nat): Hash
    requires s != []
  {
    PlaceFits(|s|, i);
    s[Place(|s|, i)]
  }

  function Padded(s: seq<Hash>): (r: seq<Hash>)
    requires s != []
    ensures |r| == Pow2(Depth(|s|)) && forall i :: 0 <= i < |r| ==> r[i] == PaddedLeaf(s, i)
  {
    seq(Pow2(Depth(|s|)), i requires 0 <= i < Pow2(Depth(|s|)) => PaddedLeaf(s, i))
  }

  lemma PaddedUp(pair: Pair, s: seq<Hash>)
    requires |s| > 1
    ensures Up(pair, s) != [] && |Padded(s)| > 1 && Up(pair, Padded(s)) == Padded(Up(pair, s))
  {
    var p, u := Padded(s), Up(pair, s);
    hide Up, PairOf;
    UpLength(pair, s);
    UpLength(pair, p);
    PowerPositive(Depth(|u|));
    forall k | 0 <= k < |Padded(u)| ensures Up(pair, p)[k] == Padded(u)[k] {
      PaddedUpAt(pair, s, k);
    }
  }

  lemma PaddedUpAt(pair: Pair, s: seq<Hash>, k: nat)
    requires |s| > 1 && Up(pair, s) != [] && k < |Padded(Up(pair, s))| && 2 * k < |Padded(s)|
    ensures k < |Up(pair, Padded(s))| && Up(pair, Padded(s))[k] == Padded(Up(pair, s))[k]
  {
    var u := Up(pair, s);
    hide Up, PairOf, Pow2;
    UpLength(pair, s);
    UpIs(pair, Padded(s), k);
    var c := Place(|u|, k);
    PlaceFits(|u|, k);
    UpIs(pair, s, c);
    PairsMatch(s, k);
  }

  lemma UpLength(pair: Pair, s: seq<Hash>)
    ensures |Up(pair, s)| == (|s| + 1) / 2
  {
  }

  lemma PowerPositive(n: nat)
    ensures Pow2(n) >= 1
  {
  }

  lemma PairsMatch(s: seq<Hash>, k: nat)
    requires |s| > 1 && 2 * k < |Padded(s)|
    ensures 2 * Place((|s| + 1) / 2, k) < |s|
    ensures PairOf(Padded(s), k) == PairOf(s, Place((|s| + 1) / 2, k))
  {
    hide Pow2;
    var c := Place((|s| + 1) / 2, k);
    PlaceFits((|s| + 1) / 2, k);
    PowerEven(Depth(|s|));
    assert (2 * k) / 2 == k && (2 * k) % 2 == 0 && (2 * k + 1) / 2 == k && (2 * k + 1) % 2 == 1;
    assert Place(|s|, 2 * k) == 2 * c && Place(|s|, 2 * k + 1) == Min(2 * c + 1, |s| - 1);
  }

  lemma PowerEven(n: nat)
    ensures n > 0 ==> Pow2(n) % 2 == 0
  {
    if n > 0 {
      assert Pow2(n) == 2 * Pow2(n - 1);
    }
  }

  /** Filling the tree up does not change its root. */
  lemma {:induction false} PaddedRoot(pair: Pair, s: seq<Hash>)
    requires s != []
    ensures Root(pair, Padded(s)) == Root(pair, s)
    decreases |s|
  {
    hide Up;
    if |s| == 1 {
      assert Padded(s) == s;
    } else {
      PaddedUp(pair, s);
      UpLength(pair, s);
      PaddedRoot(pair, Up(pair, s));
    }
  }

  /** Two full trees of one height side by side make a tree over their roots. */
  lemma {:induction false} RootSplits(pair: Pair, s: seq<Hash>, t: seq<Hash>, d: nat)
    requires |s| == |t| == Pow2(d)
    ensures Root(pair, s + t) == pair(Root(pair, s), Root(pair, t))
    decreases d
  {
    PowerPositive(d);
    if d == 0 {
      assert Up(pair, s + t) == [pair(s[0], t[0])];
    } else {
      PowerEven(d);
      assert Pow2(d) == 2 * Pow2(d - 1);
      UpSplits(pair, s, t);
      RootSplits(pair, Up(pair, s), Up(pair, t), d - 1);
    }
  }

  lemma UpSplits(pair: Pair, s: seq<Hash>, t: seq<Hash>)
    requires |s| % 2 == 0 && |s| == |t|
    ensures Up(pair, s + t) == Up(pair, s) + Up(pair, t)
  {
    var n := |s| / 2;
    forall k | 0 <= k < 2 * n ensures Up(pair, s + t)[k] == (Up(pair, s) + Up(pair, t))[k] {
      assert k >= n ==> 2 * k - |s| == 2 * (k - n);
    }
  }

  /** Lists of equal depth share a root exactly if they fill their trees up to
      the same leaves, provided that no pairs collide. */
  lemma SameRootExactly(pair: Pair, s: seq<Hash>, t: seq<Hash>)
    requires Injective(pair) && s != [] && t != [] && Depth(|s|) == Depth(|t|)
    ensures Root(pair, s) == Root(pair, t) <==>
      forall i :: 0 <= i < Pow2(Depth(|s|)) ==> PaddedLeaf(s, i) == PaddedLeaf(t, i)
  {
    hide PaddedLeaf;
    PaddedRoot(pair, s);
    PaddedRoot(pair, t);
    if Root(pair, s) == Root(pair, t) {
      RootDeterminesLeaves(pair, Padded(s), Padded(t));
    }
    if forall i :: 0 <= i < Pow2(Depth(|s|)) ==> PaddedLeaf(s, i) == PaddedLeaf(t, i) {
      assert Padded(s) == Padded(t);
    }
  }

  /** If they share a root and differ there, two pairs do collide. */
  lemma SameRootCollides(pair: Pair, s: seq<Hash>, t: seq<Hash>) returns (l: nat, k: nat)
    requires s != [] && t != [] && Depth(|s|) == Depth(|t|) && Root(pair, s) == Root(pair, t)
    requires Padded(s) != Padded(t)
    ensures 2 * k < |Level(pair, Padded(s), l)| == |Level(pair, Padded(t), l)|
    ensures PairOf(Level(pair, Padded(s), l), k) != PairOf(Level(pair, Padded(t), l), k)
    ensures HashOf(pair, PairOf(Level(pair, Padded(s), l), k)) == HashOf(pair, PairOf(Level(pair, Padded(t), l), k))
  {
    hide Padded, PairOf, Level, HashOf;
    PaddedRoot(pair, s);
    PaddedRoot(pair, t);
    PaddedLength(s, t);
    l, k := ListsCollide(pair, Padded(s), Padded(t));
  }

  lemma PaddedLength(s: seq<Hash>, t: seq<Hash>)
    requires s != [] && t != [] && Depth(|s|) == Depth(|t|)
    ensures |Padded(s)| == |Padded(t)|
  {
  }

  /** So repeating an odd last leaf leaves the root as it is. */
  lemma OddLastLeafRepeats(pair: Pair, s: seq<Hash>)
    requires |s| % 2 == 1 && |s| > 1
    ensures Root(pair, s + [s[|s| - 1]]) == Root(pair, s)
  {
    hide Padded;
    PaddedRoot(pair, s);
    PaddedRoot(pair, s + [s[|s| - 1]]);
    OddLastPadded(s);
  }

  lemma OddLastPadded(s: seq<Hash>)
    requires |s| % 2 == 1 && |s| > 1
    ensures Padded(s + [s[|s| - 1]]) == Padded(s)
  {
    var n, t := |s|, s + [s[|s| - 1]];
    assert (n + 1 + 1) / 2 == (n + 1) / 2;
    assert Depth(n + 1) == Depth(n);
    forall i | 0 <= i < Pow2(Depth(n)) ensures PaddedLeaf(t, i) == PaddedLeaf(s, i) {
      PlaceFits((n + 1) / 2, i / 2);
    }
  }

  lemma {:induction false} FlatEndsWithRoot(pair: Pair, s: seq<Hash>)
    ensures if s == [] then Flat(pair, s) == []
            else Flat(pair, s) != [] && Flat(pair, s)[|Flat(pair, s)| - 1] == Root(pair, s)
    decreases |s|
  {
    if |s| > 1 {
      FlatEndsWithRoot(pair, Up(pair, s));
    }
  }

  lemma FlatIs(pair: Pair, s: seq<Hash>)
    requires |s| > 1
    ensures Flat(pair, s) == s + Flat(pair, Up(pair, s))
  {
  }

  lemma FlatOfOne(pair: Pair, s: seq<Hash>)
    requires |s| <= 1
    ensures Flat(pair, s) == s
  {
  }

  lemma BranchIs(pair: Pair, s: seq<Hash>, i: nat)
    requires |s| > 1
    ensures 0 <= Min(Sibling(i), |s| - 1) < |s|
    ensures Branch(pair, s, i) == [s[Min(Sibling(i), |s| - 1)]] + Branch(pair, Up(pair, s), i / 2)
  {
  }

  lemma BranchOfOne(pair: Pair, s: seq<Hash>, i: nat)
    requires |s| <= 1
    ensures Branch(pair, s, i) == []
  {
  }

  lemma UpNext(pair: Pair, s: seq<Hash>, i: nat)
    requires i < |s| && i % 2 == 0
    ensures 0 <= Min(i + 1, |s| - 1) < |s|
    ensures Up(pair, s)[..(i + 2) / 2] == Up(pair, s)[..i / 2] + [pair(s[i], s[Min(i + 1, |s| - 1)])]
  {
  }

  /** A level read off the vector moves into the part below the next one. */
  lemma LevelBelow(pair: Pair, tree: seq<Hash>, j: nat, level: seq<Hash>, leaves: seq<Hash>)
    requires j <= |tree| && tree[j..] == level && |level| > 1
    requires tree[..j] + Flat(pair, level) == Flat(pair, leaves)
    ensures tree + Flat(pair, Up(pair, level)) == Flat(pair, leaves)
  {
    hide Flat, Up;
    FlatIs(pair, level);
    var above := Flat(pair, Up(pair, level));
    assert tree[..j] + (level + above) == (tree[..j] + level) + above;
  }

  // ---------------------------------------------------------------- the code

  function HashesOf(txHash: Tx -> Hash, vtx: seq<Tx>): seq<Hash> {
    seq(|vtx|, i requires 0 <= i < |vtx| => txHash(vtx[i]))
  }

  class Block {
    const pair: Pair
    const txHash: Tx -> Hash
    var vtx: seq<Tx>
    var vMerkleTree: seq<Hash>

    function Leaves(): seq<Hash>
      reads this`vtx
    {
      HashesOf(txHash, vtx)
    }

    constructor (pair: Pair, txHash: Tx -> Hash, vtx: seq<Tx>)
      ensures this.pair == pair && this.txHash == txHash && this.vtx == vtx && vMerkleTree == []
    {
      this.pair, this.txHash, this.vtx := pair, txHash, vtx;
      vMerkleTree := [];
    }

    method BuildMerkleTree() returns (root: Hash)
      modifies this`vMerkleTree
      ensures vMerkleTree == Flat(pair, Leaves()) && root == Root(pair, Leaves())
    {
      hide Up, Flat, Min;
      vMerkleTree := [];
      for k := 0 to |vtx|
        invariant vMerkleTree == Leaves()[..k]
      {
        vMerkleTree := vMerkleTree + [txHash(vtx[k])];
      }
      var j := 0;
      var nSize := |vtx|;
      ghost var level := Leaves();
      while nSize > 1
        invariant 0 <= j && |level| == nSize && |vMerkleTree| == j + nSize && vMerkleTree[j..] == level
        invariant vMerkleTree[..j] + Flat(pair, level) == Flat(pair, Leaves())
        decreases nSize
      {
        ghost var below := vMerkleTree;
        LevelBelow(pair, below, j, level, Leaves());
        AppendLevel(j, nSize);
        j := j + nSize;
        assert vMerkleTree[..j] == below;
        nSize := (nSize + 1) / 2;
        level := Up(pair, level);
      }
      FlatOfOne(pair, level);
      FlatEndsWithRoot(pair, Leaves());
      root := if |vMerkleTree| == 0 then 0 else vMerkleTree[|vMerkleTree| - 1];
    }

    /** Append the hashes of the last level's pairs. */
    method AppendLevel(j: nat, nSize: nat)
      requires nSize > 1 && |vMerkleTree| == j + nSize
      modifies this`vMerkleTree
      ensures vMerkleTree == old(vMerkleTree) + Up(pair, old(vMerkleTree[j..]))
    {
      hide Up, Min;
      ghost var below, level := vMerkleTree, vMerkleTree[j..];
      var i := 0;
      while i < nSize
        invariant 0 <= i <= nSize + 1 && i % 2 == 0 && |vMerkleTree| == |below| + i / 2
        invariant vMerkleTree == below + Up(pair, level)[..i / 2]
      {
        var i2 := Min(i + 1, nSize - 1);
        UpNext(pair, level, i);
        assert vMerkleTree[j + i] == level[i] && vMerkleTree[j + i2] == level[i2];
        vMerkleTree := vMerkleTree + [pair(vMerkleTree[j + i], vMerkleTree[j + i2])];
        i := i + 2;
      }
      assert Up(pair, level)[..i / 2] == Up(pair, level);
    }

    /** The tree must be empty or the one of the transactions as they are. */
    method GetMerkleBranch(nIndex: nat) returns (vMerkleBranch: seq<Hash>)
      requires vMerkleTree == [] || vMerkleTree == Flat(pair, Leaves())
      modifies this`vMerkleTree
      ensures vMerkleTree == Flat(pair, Leaves())
      ensures vMerkleBranch == Branch(pair, Leaves(), nIndex)
    {
      hide Up, Flat, Branch, Min, Sibling;
      if |vMerkleTree| == 0 {
        var _ := BuildMerkleTree();
      }
      vMerkleBranch := [];
      var j, n := 0, nIndex;
      var nSize := |vtx|;
      ghost var level := Leaves();
      while nSize > 1
        invariant 0 <= j <= |vMerkleTree| && |level| == nSize && vMerkleTree[j..] == Flat(pair, level)
        invariant vMerkleTree == Flat(pair, Leaves())
        invariant vMerkleBranch + Branch(pair, level, n) == Branch(pair, Leaves(), nIndex)
        decreases nSize
      {
        var i := Min(Sibling(n), nSize - 1);
        FlatIs(pair, level);
        BranchIs(pair, level, n);
        assert vMerkleTree[j + i] == vMerkleTree[j..][i] == level[i];
        vMerkleBranch := vMerkleBranch + [vMerkleTree[j + i]];
        assert vMerkleTree[j + nSize..] == vMerkleTree[j..][nSize..];
        n := n / 2;
        j := j + nSize;
        nSize := (nSize + 1) / 2;
        level := Up(pair, level);
      }
      BranchOfOne(pair, level, n);
    }

    method CheckMerkleBranch(hash: Hash, vMerkleBranch: seq<Hash>, nIndex: int) returns (r: Hash)
      ensures r == if nIndex == -1 then 0 else Fold(pair, hash, vMerkleBranch, nIndex)
    {
      if nIndex == -1 {
        return 0;
      }
      var n := nIndex;
      r := hash;
      for k := 0 to |vMerkleBranch|
        invariant Fold(pair, r, vMerkleBranch[k..], n) == Fold(pair, hash, vMerkleBranch, nIndex)
      {
        var otherside := vMerkleBranch[k];
        assert vMerkleBranch[k..][1..] == vMerkleBranch[k + 1..];
        if n % 2 == 1 {
          r := pair(otherside, r);
        } else {
          r := pair(r, otherside);
        }
        n := n / 2;
      }
    }

    /** A block's own branches check out. */
    method CheckOwnBranch(nIndex: nat) returns (branch: seq<Hash>, r: Hash)
      requires nIndex < |vtx|
      requires vMerkleTree == [] || vMerkleTree == Flat(pair, Leaves())
      modifies this`vMerkleTree
      ensures r == Root(pair, Leaves())
    {
      branch := GetMerkleBranch(nIndex);
      r := CheckMerkleBranch(txHash(vtx[nIndex]), branch, nIndex);
      BranchLeadsToRoot(pair, Leaves(), nIndex);
    }
  }
}
