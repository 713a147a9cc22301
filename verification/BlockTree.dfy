/** The tree of known blocks (`mapBlockIndex` and its `pprev` pointers). */
module BlockTree {

  type Hash = nat
  datatype Option<T> = None | Some(value: T)
  datatype Node = Node(height: nat, prev: Option<Hash>)
  type Index = map<Hash, Node>

  /** A block without a parent is at height 0; any other is one above its parent. */
  ghost predicate Tree(index: Index) {
    forall h :: h in index ==>
      if index[h].prev == None then index[h].height == 0
      else index[h].prev.value in index && index[h].height == index[index[h].prev.value].height + 1
  }

  /** The block at or below a height that one meets going back from h. */
  ghost function Back(index: Index, h: Hash, height: nat): (r: Hash)
    requires Tree(index) && h in index
    ensures r in index && index[r].height <= height
    ensures height <= index[h].height ==> index[r].height == height
    decreases index[h].height
  {
    if index[h].height <= height then h else Back(index, index[h].prev.value, height)
  }

  /** b is a, or before it. */
  ghost predicate Descends(index: Index, a: Hash, b: Hash)
    requires Tree(index)
  {
    a in index && b in index && index[b].height <= index[a].height && Back(index, a, index[b].height) == b
  }

  ghost predicate StrictlyDescends(index: Index, a: Hash, b: Hash)
    requires Tree(index)
  {
    Descends(index, a, b) && index[b].height < index[a].height
  }

  lemma {:induction false} BackTwice(index: Index, h: Hash, m: nat, n: nat)
    requires Tree(index) && h in index && n <= m
    ensures Back(index, Back(index, h, m), n) == Back(index, h, n)
    decreases index[h].height
  {
    if index[h].height > m {
      BackTwice(index, index[h].prev.value, m, n);
    }
  }

  lemma DescendsTransitive(index: Index, a: Hash, b: Hash, c: Hash)
    requires Tree(index) && Descends(index, a, b) && Descends(index, b, c)
    ensures Descends(index, a, c)
  {
    BackTwice(index, a, index[b].height, index[c].height);
  }

  /** Descent is being the block itself or having a parent that descends. */
  lemma DescendsByParent(index: Index, a: Hash, b: Hash)
    requires Tree(index) && a in index
    ensures Descends(index, a, b) <==>
      b in index && (a == b || (index[a].prev != None && Descends(index, index[a].prev.value, b)))
  {
  }

  /** Two blocks that descend from each other are the same. */
  lemma DescendsAntisymmetric(index: Index, a: Hash, b: Hash)
    requires Tree(index) && Descends(index, a, b)
    ensures Descends(index, b, a) <==> a == b
    ensures StrictlyDescends(index, a, b) <==> a != b
  {
  }

  /** More blocks, and the known ones as they were. */
  ghost predicate Grows(index: Index, index': Index) {
    Tree(index') && forall h :: h in index ==> h in index' && index'[h] == index[h]
  }

  lemma {:induction false} GrownBack(index: Index, index': Index, h: Hash, height: nat)
    requires Tree(index) && Grows(index, index') && h in index
    ensures Back(index', h, height) == Back(index, h, height)
    decreases index[h].height
  {
    if index[h].height > height {
      GrownBack(index, index', index[h].prev.value, height);
    }
  }

  lemma GrownDescends(index: Index, index': Index, a: Hash, b: Hash)
    requires Tree(index) && Grows(index, index') && a in index && b in index
    ensures Descends(index', a, b) <==> Descends(index, a, b)
  {
    GrownBack(index, index', a, index[b].height);
  }

  /** A new block under a parent. */
  function Added(index: Index, h: Hash, prev: Hash): Index
    requires prev in index
  {
    index[h := Node(index[prev].height + 1, Some(prev))]
  }

  /** It descends from what its parent is or descends from, and from itself. */
  lemma AddedDescends(index: Index, h: Hash, prev: Hash, b: Hash)
    requires Tree(index) && prev in index && h !in index
    ensures Grows(index, Added(index, h, prev))
    ensures b in index ==> (StrictlyDescends(Added(index, h, prev), h, b) <==> Descends(index, prev, b))
  {
    var index' := Added(index, h, prev);
    if b in index {
      GrownBack(index, index', prev, index[b].height);
      assert Back(index', h, index[b].height) ==
        if index[prev].height + 1 <= index[b].height then h else Back(index', prev, index[b].height);
    }
  }
}
