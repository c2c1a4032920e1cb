/**
 * The steps of the key skip list (lib/nghttp3_ksl.c) that act on one
 * block or on two adjacent siblings: the search within a block, the
 * split of a full block, the insertion and removal of a node, the merge
 * of two siblings and the moves of nodes between them.  Each step is a
 * function from the old block to the new one; the lemmas say which part
 * of the invariant it keeps and that it leaves the entry sequence as it
 * was.
 */
module KslBlk {
  import opened KslTree
  import opened KslSpec

  // ---------------------------------------------------------------------
  // Search within a block.

  /**
   * `ksl->search(ksl, blk, key)`: the index of the first entry or node of
   * `b` whose key is not below `key`, or `Len(b)` when there is none.
   */
  function Search(b: Blk, key: int): (r: nat)
    ensures r <= Len(b)
    ensures forall j :: 0 <= j < r ==> NthKey(b, j) < key
    ensures r < Len(b) ==> key <= NthKey(b, r)
  {
    SearchFrom(b, key, 0)
  }

  function SearchFrom(b: Blk, key: int, i: nat): (r: nat)
    requires i <= Len(b)
    ensures i <= r <= Len(b)
    ensures forall j :: i <= j < r ==> NthKey(b, j) < key
    ensures r < Len(b) ==> key <= NthKey(b, r)
    decreases Len(b) - i
  {
    if i == Len(b) || !(NthKey(b, i) < key) then i else SearchFrom(b, key, i + 1)
  }

  /** In a leaf the search finds the lower-bound position of the key among its entries. */
  lemma SearchLeaf(ents: seq<Ent>, key: int)
    ensures Search(Leaf(ents), key) == Rank(ents, key)
  {
    var i := Search(Leaf(ents), key);
    assert forall j :: 0 <= j < i ==> NthKey(Leaf(ents), j) == ents[j].key;
    RankUnique(ents, key, i);
  }

  /**
   * In an internal block the search selects the child whose entries
   * enclose `key`: every entry before that child is below `key` and every
   * entry after it above; when the search runs off the end, every entry of
   * the block is below `key`.
   */
  lemma SearchChild(b: Blk, h: nat, key: int)
    requires Ordered(b, h) && b.Branch?
    ensures Search(b, key) < Len(b) ==>
      var i := Search(b, key);
      && Elems(b) == Flat(b.nodes[..i]) + Elems(b.nodes[i].blk) + Flat(b.nodes[i + 1..])
      && Under(Flat(b.nodes[..i]), key)
      && Above(Flat(b.nodes[i + 1..]), key)
    ensures Search(b, key) == Len(b) ==> Under(Elems(b), key)
  {
    var i := Search(b, key);
    var nodes := b.nodes;
    assert NodesOk(nodes, h - 1);
    if i < |nodes| {
      FlatAt(nodes, i);
      if i > 0 {
        assert NthKey(b, i - 1) == nodes[i - 1].key;
        PrefixUnder(nodes, h - 1, i, key);
      } else {
        assert Flat(nodes[..0]) == [];
      }
      SuffixAbove(nodes, h - 1, i);
    } else {
      OrderedSorted(b, h);
      assert nodes[..i] == nodes;
      if i > 0 {
        assert NthKey(b, i - 1) == nodes[i - 1].key;
        PrefixUnder(nodes, h - 1, i, key);
      }
    }
  }

  // ---------------------------------------------------------------------
  // Replacing a run of nodes.

  /** The nodes of `nodes` with those in [lo, hi) replaced by `mid`. */
  function Splice(nodes: seq<Node>, lo: nat, hi: nat, mid: seq<Node>): seq<Node>
    requires lo <= hi <= |nodes|
  {
    nodes[..lo] + mid + nodes[hi..]
  }

  /** A node keyed by the last key of its child, as a split or a merge creates it. */
  function KeyedBy(c: Blk): Node
    requires Len(c) > 0
  {
    Node(LastKey(c), c)
  }

  lemma SpliceFlat(nodes: seq<Node>, lo: nat, hi: nat, mid: seq<Node>)
    requires lo <= hi <= |nodes|
    ensures Flat(Splice(nodes, lo, hi, mid)) == Flat(nodes[..lo]) + Flat(mid) + Flat(nodes[hi..])
    ensures Flat(nodes) == Flat(nodes[..lo]) + Flat(nodes[lo..hi]) + Flat(nodes[hi..])
  {
    FlatAppend(nodes[..lo] + mid, nodes[hi..]);
    FlatAppend(nodes[..lo], mid);
    FlatAppend(nodes[..lo] + nodes[lo..hi], nodes[hi..]);
    FlatAppend(nodes[..lo], nodes[lo..hi]);
    assert nodes[..lo] + nodes[lo..hi] + nodes[hi..] == nodes;
  }

  /** The entries of a run of nodes, the first node's first. */
  lemma FlatFirst(mid: seq<Node>)
    requires |mid| > 0
    ensures Flat(mid) == Elems(mid[0].blk) + Flat(mid[1..])
  {
    FlatAppend([mid[0]], mid[1..]);
    FlatOne(mid[0]);
    assert [mid[0]] + mid[1..] == mid;
  }

  /** Every entry of nodes [lo, hi) is above the key of the node before them. */
  lemma RunAbove(nodes: seq<Node>, h: nat, lo: nat, hi: nat)
    requires NodesOk(nodes, h) && 0 < lo <= hi <= |nodes|
    ensures Above(Flat(nodes[lo..hi]), nodes[lo - 1].key)
  {
    SuffixAbove(nodes, h, lo - 1);
    var s := nodes[lo..];
    assert s == nodes[lo..hi] + nodes[hi..];
    FlatAppend(nodes[lo..hi], nodes[hi..]);
    AboveSplit(Flat(nodes[lo..hi]), Flat(nodes[hi..]), nodes[lo - 1].key);
  }

  /**
   * Replacing a run of nodes by a valid run keeps a valid block when the
   * new run fits between its neighbours.
   */
  lemma SpliceOk(nodes: seq<Node>, h: nat, lo: nat, hi: nat, mid: seq<Node>)
    requires NodesOk(nodes, h) && lo < hi <= |nodes|
    requires NodesOk(mid, h) && |mid| > 0
    requires lo > 0 ==> Above(Elems(mid[0].blk), nodes[lo - 1].key)
    requires hi < |nodes| ==> Above(Elems(nodes[hi].blk), mid[|mid| - 1].key)
    ensures NodesOk(Splice(nodes, lo, hi, mid), h)
  {
    var pre := nodes[..lo];
    var post := nodes[hi..];
    NodesOkSlice(nodes, h, 0, lo);
    assert nodes[0..lo] == pre;
    NodesOkSlice(nodes, h, hi, |nodes|);
    assert nodes[hi..|nodes|] == post;
    if lo > 0 {
      assert Linked(pre[|pre| - 1], mid[0]);
    }
    NodesOkAppend(pre, mid, h);
    if hi < |nodes| {
      assert (pre + mid)[|pre + mid| - 1] == mid[|mid| - 1];
      assert Linked(mid[|mid| - 1], post[0]);
    }
    NodesOkAppend(pre + mid, post, h);
  }

  /**
   * Replacing a run of nodes by a valid run holding the same entries,
   * whose last key is not above the old run's, keeps a valid block and
   * its entries.
   */
  lemma SpliceSame(nodes: seq<Node>, h: nat, lo: nat, hi: nat, mid: seq<Node>)
    requires NodesOk(nodes, h) && lo < hi <= |nodes|
    requires NodesOk(mid, h) && |mid| > 0
    requires Flat(mid) == Flat(nodes[lo..hi])
    requires mid[|mid| - 1].key <= nodes[hi - 1].key
    ensures NodesOk(Splice(nodes, lo, hi, mid), h)
    ensures Flat(Splice(nodes, lo, hi, mid)) == Flat(nodes)
  {
    SpliceFlat(nodes, lo, hi, mid);
    if lo > 0 {
      RunAbove(nodes, h, lo, hi);
      FlatFirst(mid);
      AboveSplit(Elems(mid[0].blk), Flat(mid[1..]), nodes[lo - 1].key);
    }
    if hi < |nodes| {
      assert Linked(nodes[hi - 1], nodes[hi]);
    }
    SpliceOk(nodes, h, lo, hi, mid);
  }

  lemma FlatPair(a: Node, c: Node)
    ensures Flat([a, c]) == Elems(a.blk) + Elems(c.blk)
  {
    FlatAppend([a], [c]);
    FlatOne(a);
    FlatOne(c);
    assert [a] + [c] == [a, c];
  }

  lemma FlatRun(nodes: seq<Node>, i: nat)
    requires i < |nodes|
    ensures Flat(nodes[i..i + 1]) == Elems(nodes[i].blk)
  {
    assert nodes[i..i + 1] == [nodes[i]];
    FlatOne(nodes[i]);
  }

  lemma FlatRun2(nodes: seq<Node>, i: nat)
    requires i + 1 < |nodes|
    ensures Flat(nodes[i..i + 2]) == Elems(nodes[i].blk) + Elems(nodes[i + 1].blk)
  {
    assert nodes[i..i + 2] == [nodes[i], nodes[i + 1]];
    FlatPair(nodes[i], nodes[i + 1]);
  }

  lemma LastKeyAppend(b: Blk, c: Blk)
    requires b.Leaf? == c.Leaf? && Len(c) > 0
    ensures LastKey(Append(b, c)) == LastKey(c)
  {
  }

  lemma LastKeyDrop(b: Blk, k: nat)
    requires k < Len(b)
    ensures LastKey(Drop(b, k)) == LastKey(b)
  {
  }

  /** A block valid below the head is valid as the head. */
  lemma TreeAsRoot(b: Blk, h: nat)
    requires Tree(b, h, false)
    ensures Tree(b, h, true)
  {
  }

  // ---------------------------------------------------------------------
  // Splitting.

  /**
   * `ksl_split_blk`: the last `Len(b) / 2` entries or nodes of `b` move to
   * a new block on its right.
   */
  function SplitBlk(b: Blk): (r: (Blk, Blk))
    requires 2 * MIN_NBLK <= Len(b)
    ensures r.0.Leaf? == b.Leaf? && r.1.Leaf? == b.Leaf?
    ensures Append(r.0, r.1) == b
    ensures Len(r.1) == Len(b) / 2 && Len(r.0) == Len(b) - Len(b) / 2
    ensures MIN_NBLK <= Len(r.0) && MIN_NBLK <= Len(r.1)
  {
    var k := Len(b) - Len(b) / 2;
    TakeDropAppend(b, k);
    (Take(b, k), Drop(b, k))
  }

  /**
   * Both halves of a split are valid blocks below the head, all of the
   * right half is above the left's last key, and the right half ends
   * with the old last key.
   */
  lemma SplitBlkOk(b: Blk, h: nat)
    requires Ordered(b, h) && 2 * MIN_NBLK <= Len(b) <= MAX_NBLK
    ensures Tree(SplitBlk(b).0, h, false) && Tree(SplitBlk(b).1, h, false)
    ensures Elems(SplitBlk(b).0) + Elems(SplitBlk(b).1) == Elems(b)
    ensures Above(Elems(SplitBlk(b).1), LastKey(SplitBlk(b).0))
    ensures LastKey(SplitBlk(b).1) == LastKey(b)
  {
    var k := Len(b) - Len(b) / 2;
    OrderedTake(b, h, k);
    OrderedDrop(b, h, k);
    ElemsTakeDrop(b, k);
    TakeDropApart(b, h, k);
    LastKeyDrop(b, k);
  }

  lemma SplitBlkSized(b: Blk, h: nat, root: bool)
    requires Sized(b, h, root) && 2 * MIN_NBLK <= Len(b)
    ensures Sized(SplitBlk(b).0, h, false) && Sized(SplitBlk(b).1, h, false)
  {
    var k := Len(b) - Len(b) / 2;
    if b.Branch? {
      var l := SplitBlk(b).0;
      var r := SplitBlk(b).1;
      forall j | 0 <= j < |l.nodes| ensures Sized(l.nodes[j].blk, h - 1, false) {
        assert l.nodes[j] == b.nodes[j];
      }
      forall j | 0 <= j < |r.nodes| ensures Sized(r.nodes[j].blk, h - 1, false) {
        assert r.nodes[j] == b.nodes[k + j];
      }
    }
  }

  /**
   * `ksl_split_node`: the child at `i` is split, its right half becoming
   * node `i + 1`; both nodes are keyed by their blocks' last keys.
   */
  function SplitNode(b: Blk, i: nat): (r: Blk)
    requires b.Branch? && i < |b.nodes| && 2 * MIN_NBLK <= Len(b.nodes[i].blk)
    ensures r.Branch? && Len(r) == Len(b) + 1
  {
    var halves := SplitBlk(b.nodes[i].blk);
    Branch(Splice(b.nodes, i, i + 1, [KeyedBy(halves.0), KeyedBy(halves.1)]))
  }

  /**
   * A split keeps the order and the entries; the nodes before `i` and
   * after `i + 1` are the old ones, the two halves join into the old
   * child, and the new key at `i + 1` does not exceed the old key at `i`.
   */
  lemma SplitNodeOk(b: Blk, h: nat, i: nat)
    requires Ordered(b, h) && b.Branch? && i < |b.nodes|
    requires 2 * MIN_NBLK <= Len(b.nodes[i].blk)
    ensures Ordered(SplitNode(b, i), h)
    ensures Elems(SplitNode(b, i)) == Elems(b)
    ensures var r := SplitNode(b, i);
      && r.nodes[..i] == b.nodes[..i] && r.nodes[i + 2..] == b.nodes[i + 1..]
      && Append(r.nodes[i].blk, r.nodes[i + 1].blk) == b.nodes[i].blk
      && r.nodes[i].key == LastKey(r.nodes[i].blk)
      && r.nodes[i + 1].key == LastKey(r.nodes[i + 1].blk) <= b.nodes[i].key
  {
    var nodes := b.nodes;
    assert NodesOk(nodes, h - 1);
    assert NodeOk(nodes[i], h - 1);
    var halves := SplitBlk(nodes[i].blk);
    SplitPair(nodes[i], h - 1);
    FlatRun(nodes, i);
    var mid := [KeyedBy(halves.0), KeyedBy(halves.1)];
    ReplaceRun(b, h, i, i + 1, mid);
    SpliceParts(nodes, i, i + 1, mid);
  }

  /** The two nodes over the halves of a split child: a valid run with the child's entries. */
  lemma SplitPair(nd: Node, h: nat)
    requires NodeOk(nd, h) && 2 * MIN_NBLK <= Len(nd.blk)
    ensures var halves := SplitBlk(nd.blk);
      var mid := [KeyedBy(halves.0), KeyedBy(halves.1)];
      && NodesOk(mid, h) && Flat(mid) == Elems(nd.blk)
      && LastKey(halves.1) <= nd.key
  {
    var c := nd.blk;
    assert Tree(c, h, false) && Ordered(c, h);
    var halves := SplitBlk(c);
    SplitBlkOk(c, h);
    PairOk(KeyedBy(halves.0), KeyedBy(halves.1), h);
  }

  /** Where the old and the new nodes lie after a splice. */
  lemma SpliceParts(nodes: seq<Node>, lo: nat, hi: nat, mid: seq<Node>)
    requires lo <= hi <= |nodes|
    ensures |Splice(nodes, lo, hi, mid)| == |nodes| - (hi - lo) + |mid|
    ensures Splice(nodes, lo, hi, mid)[..lo] == nodes[..lo]
    ensures Splice(nodes, lo, hi, mid)[lo + |mid|..] == nodes[hi..]
    ensures forall j :: 0 <= j < |mid| ==> Splice(nodes, lo, hi, mid)[lo + j] == mid[j]
  {
    var r := Splice(nodes, lo, hi, mid);
    assert r[..lo] == nodes[..lo];
    assert r[lo + |mid|..] == nodes[hi..];
  }

  /**
   * Replacing the nodes [lo, hi) of a valid block by a valid run holding
   * the same entries, whose last key is not above the old run's, keeps
   * the order and the entries; the last key does not grow, and is kept
   * when the run's last key is.
   */
  lemma ReplaceRun(b: Blk, h: nat, lo: nat, hi: nat, mid: seq<Node>)
    requires Ordered(b, h) && b.Branch? && lo < hi <= |b.nodes|
    requires h > 0 && NodesOk(mid, h - 1) && |mid| > 0
    requires Flat(mid) == Flat(b.nodes[lo..hi])
    requires mid[|mid| - 1].key <= b.nodes[hi - 1].key
    ensures var r := Branch(Splice(b.nodes, lo, hi, mid));
      && Ordered(r, h) && Elems(r) == Elems(b)
      && LastKey(r) <= LastKey(b)
      && (mid[|mid| - 1].key == b.nodes[hi - 1].key ==> LastKey(r) == LastKey(b))
  {
    var nodes := b.nodes;
    var r := Splice(nodes, lo, hi, mid);
    assert NodesOk(r, h - 1) && Flat(r) == Flat(nodes) by {
      assert NodesOk(nodes, h - 1);
      SpliceSame(nodes, h - 1, lo, hi, mid);
    }
    assert Ordered(Branch(r), h) && Elems(Branch(r)) == Elems(b);
    assert r[|r| - 1] == (if hi < |nodes| then nodes[|nodes| - 1] else mid[|mid| - 1]) by {
      SpliceParts(nodes, lo, hi, mid);
      if hi == |nodes| {
        assert r[lo + (|mid| - 1)] == mid[|mid| - 1];
      }
    }
    assert LastKey(Branch(r)) == r[|r| - 1].key;
    assert LastKey(b) == nodes[|nodes| - 1].key;
  }

  lemma SplitNodeSized(b: Blk, h: nat, root: bool, i: nat)
    requires Sized(b, h, root) && b.Branch? && i < |b.nodes| && Len(b) < MAX_NBLK
    requires 2 * MIN_NBLK <= Len(b.nodes[i].blk)
    ensures Sized(SplitNode(b, i), h, root)
  {
    var r := SplitNode(b, i);
    SplitBlkSized(b.nodes[i].blk, h - 1, false);
    forall j | 0 <= j < |r.nodes| ensures Sized(r.nodes[j].blk, h - 1, false) {
      if j < i {
        assert r.nodes[j] == b.nodes[j];
      } else if j > i + 1 {
        assert r.nodes[j] == b.nodes[j - 1];
      }
    }
  }

  /**
   * `ksl_split_head`: the head block is split and a new head of two nodes
   * is placed above the halves, raising the height by one.
   */
  function SplitHead(b: Blk): (r: Blk)
    requires 2 * MIN_NBLK <= Len(b)
    ensures r.Branch? && Len(r) == 2
  {
    var halves := SplitBlk(b);
    Branch([KeyedBy(halves.0), KeyedBy(halves.1)])
  }

  /** Splitting a valid head gives a valid head one level higher, with the same entries. */
  lemma SplitHeadOk(b: Blk, h: nat)
    requires Tree(b, h, true) && 2 * MIN_NBLK <= Len(b)
    ensures Tree(SplitHead(b), h + 1, true)
    ensures Elems(SplitHead(b)) == Elems(b)
    ensures LastKey(SplitHead(b)) == LastKey(b)
  {
    var halves := SplitBlk(b);
    assert Ordered(b, h);
    SplitBlkOk(b, h);
    PairOk(KeyedBy(halves.0), KeyedBy(halves.1), h);
  }

  /** Two valid nodes, the second's entries above the first's key, form a valid run. */
  lemma PairOk(x: Node, y: Node, h: nat)
    requires NodeOk(x, h) && NodeOk(y, h) && Linked(x, y)
    ensures NodesOk([x, y], h)
    ensures Flat([x, y]) == Elems(x.blk) + Elems(y.blk)
  {
    FlatPair(x, y);
  }

  lemma SplitHeadSized(b: Blk, h: nat)
    requires Sized(b, h, true) && 2 * MIN_NBLK <= Len(b)
    ensures Sized(SplitHead(b), h + 1, true)
  {
    SplitBlkSized(b, h, true);
    var nodes := SplitHead(b).nodes;
    assert Sized(nodes[0].blk, h, false) && Sized(nodes[1].blk, h, false);
  }

  // ---------------------------------------------------------------------
  // Inserting and removing one node.

  /** `ksl_insert_node`: the entry `e` is placed at index `i` of a leaf that is not full. */
  function InsertNode(b: Blk, i: nat, e: Ent): (r: Blk)
    requires b.Leaf? && i <= Len(b) && Len(b) < MAX_NBLK
    ensures r.Leaf? && Len(r) == Len(b) + 1 && r.ents[i] == e
    ensures r.ents[..i] == b.ents[..i] && r.ents[i + 1..] == b.ents[i..]
  {
    Leaf(b.ents[..i] + [e] + b.ents[i..])
  }

  /** Placing a new entry at its lower-bound position is the abstract insertion. */
  lemma InsertNodeIns(b: Blk, e: Ent)
    requires b.Leaf? && Len(b) < MAX_NBLK
    ensures Elems(InsertNode(b, Rank(b.ents, e.key), e)) == Ins(Elems(b), e)
  {
  }

  /** `ksl_remove_node`: the entry or node at index `i` is removed. */
  function RemoveNode(b: Blk, i: nat): (r: Blk)
    requires i < Len(b)
    ensures r.Leaf? == b.Leaf? && Len(r) == Len(b) - 1
    ensures forall j :: 0 <= j < Len(r) ==> NthKey(r, j) == NthKey(b, if j < i then j else j + 1)
  {
    match b
    case Leaf(ents) => Leaf(ents[..i] + ents[i + 1..])
    case Branch(nodes) => Branch(nodes[..i] + nodes[i + 1..])
  }

  /** Removing the entry at the lower-bound position of a key is the abstract deletion. */
  lemma RemoveNodeDel(b: Blk, k: int)
    requires b.Leaf? && Rank(b.ents, k) < Len(b)
    ensures Elems(RemoveNode(b, Rank(b.ents, k))) == Del(Elems(b), k)
  {
  }

  // ---------------------------------------------------------------------
  // Merging two siblings.

  /** The two children at `i` and `i + 1` as one block. */
  function Merged(b: Blk, i: nat): (m: Blk)
    requires b.Branch? && i + 1 < |b.nodes|
    requires b.nodes[i].blk.Leaf? == b.nodes[i + 1].blk.Leaf?
    ensures Len(m) == Len(b.nodes[i].blk) + Len(b.nodes[i + 1].blk)
    ensures m.Leaf? == b.nodes[i].blk.Leaf?
  {
    Append(b.nodes[i].blk, b.nodes[i + 1].blk)
  }

  /**
   * `ksl_merge_node`: the child at `i + 1` is appended to the child at
   * `i`.  A head with just these two nodes is replaced by the merged
   * block, lowering the height by one; otherwise node `i + 1` is removed
   * and node `i` is keyed by the merged block's last key.
   */
  function MergeNode(b: Blk, i: nat, head: bool): (r: Blk)
    requires b.Branch? && i + 1 < |b.nodes|
    requires b.nodes[i].blk.Leaf? == b.nodes[i + 1].blk.Leaf?
    requires Len(b.nodes[i].blk) + Len(b.nodes[i + 1].blk) < MAX_NBLK
    requires 0 < Len(b.nodes[i].blk) + Len(b.nodes[i + 1].blk)
    ensures head && |b.nodes| == 2 ==> Len(r) == Len(b.nodes[i].blk) + Len(b.nodes[i + 1].blk)
    ensures !(head && |b.nodes| == 2) ==> r.Branch? && Len(r) == Len(b) - 1
  {
    var m := Merged(b, i);
    if head && |b.nodes| == 2 then m
    else Branch(Splice(b.nodes, i, i + 2, [KeyedBy(m)]))
  }

  /** The merged block of two adjacent children of a valid block is a valid non-head block. */
  lemma MergedOk(b: Blk, h: nat, i: nat)
    requires Ordered(b, h) && b.Branch? && i + 1 < |b.nodes|
    requires Len(b.nodes[i].blk) + Len(b.nodes[i + 1].blk) < MAX_NBLK
    ensures h > 0
    ensures b.nodes[i].blk.Leaf? == b.nodes[i + 1].blk.Leaf?
    ensures Tree(Merged(b, i), h - 1, false)
    ensures Elems(Merged(b, i)) == Flat(b.nodes[i..i + 2])
    ensures LastKey(Merged(b, i)) <= b.nodes[i + 1].key
  {
    var nodes := b.nodes;
    assert NodesOk(nodes, h - 1);
    var l := nodes[i].blk;
    var c := nodes[i + 1].blk;
    assert NodeOk(nodes[i], h - 1) && NodeOk(nodes[i + 1], h - 1);
    assert Linked(nodes[i], nodes[i + 1]);
    assert Tree(l, h - 1, false) && Ordered(l, h - 1);
    assert Tree(c, h - 1, false) && Ordered(c, h - 1);
    TreeSized(l, h - 1, false);
    TreeSized(c, h - 1, false);
    AboveMono(Elems(c), nodes[i].key, LastKey(l));
    OrderedAppend(l, c, h - 1);
    ElemsAppend(l, c);
    LastKeyAppend(l, c);
    FlatRun2(nodes, i);
  }

  /**
   * A merge keeps the order and the entries.  When the head collapses, the
   * merged block is a valid head one level lower; otherwise the block
   * keeps its size bounds (being the head or above the minimum before),
   * its merged node `i` holds the two children, and its last key does not
   * grow.
   */
  lemma MergeNodeOk(b: Blk, h: nat, i: nat, head: bool)
    requires Tree(b, h, head) && (head || MIN_NBLK < Len(b))
    requires b.Branch? && i + 1 < |b.nodes|
    requires Len(b.nodes[i].blk) + Len(b.nodes[i + 1].blk) < MAX_NBLK
    ensures h > 0
    ensures b.nodes[i].blk.Leaf? == b.nodes[i + 1].blk.Leaf?
    ensures 0 < Len(b.nodes[i].blk) + Len(b.nodes[i + 1].blk)
    ensures Elems(MergeNode(b, i, head)) == Elems(b)
    ensures head && |b.nodes| == 2 ==> Tree(MergeNode(b, i, head), h - 1, true)
    ensures !(head && |b.nodes| == 2) ==>
      var r := MergeNode(b, i, head);
      && Tree(r, h, head)
      && r.nodes[i].blk == Merged(b, i)
      && r.nodes[..i] == b.nodes[..i] && r.nodes[i + 1..] == b.nodes[i + 2..]
      && LastKey(r) <= LastKey(b)
  {
    var nodes := b.nodes;
    assert Ordered(b, h);
    MergedOk(b, h, i);
    var m := Merged(b, i);
    if head && |nodes| == 2 {
      FlatRun2(nodes, 0);
      assert nodes[0..2] == nodes;
      assert Elems(b) == Flat(nodes);
    } else {
      MergeSplice(b, h, i, head);
    }
  }

  lemma MergeSplice(b: Blk, h: nat, i: nat, head: bool)
    requires Tree(b, h, head) && (head || MIN_NBLK < Len(b))
    requires b.Branch? && i + 1 < |b.nodes|
    requires Len(b.nodes[i].blk) + Len(b.nodes[i + 1].blk) < MAX_NBLK
    requires !(head && |b.nodes| == 2)
    requires h > 0 && b.nodes[i].blk.Leaf? == b.nodes[i + 1].blk.Leaf?
    requires Tree(Merged(b, i), h - 1, false)
    requires Elems(Merged(b, i)) == Flat(b.nodes[i..i + 2])
    requires LastKey(Merged(b, i)) <= b.nodes[i + 1].key
    ensures var r := MergeNode(b, i, head);
      && Elems(r) == Elems(b)
      && Tree(r, h, head)
      && r.nodes[i].blk == Merged(b, i)
      && r.nodes[..i] == b.nodes[..i] && r.nodes[i + 1..] == b.nodes[i + 2..]
      && LastKey(r) <= LastKey(b)
  {
    assert Ordered(b, h);
    var m := Merged(b, i);
    var mid := [KeyedBy(m)];
    assert NodeOk(mid[0], h - 1);
    assert NodesOk(mid, h - 1);
    FlatOne(mid[0]);
    ReplaceRun(b, h, i, i + 2, mid);
    SpliceParts(b.nodes, i, i + 2, mid);
  }

  lemma MergeNodeSized(b: Blk, h: nat, i: nat, head: bool)
    requires Sized(b, h, head) && (head || MIN_NBLK < Len(b))
    requires b.Branch? && i + 1 < |b.nodes|
    requires Len(b.nodes[i].blk) + Len(b.nodes[i + 1].blk) < MAX_NBLK
    ensures b.nodes[i].blk.Leaf? == b.nodes[i + 1].blk.Leaf?
    ensures 0 < Len(b.nodes[i].blk) + Len(b.nodes[i + 1].blk)
    ensures head && |b.nodes| == 2 ==> Sized(MergeNode(b, i, head), h - 1, true)
    ensures !(head && |b.nodes| == 2) ==> Sized(MergeNode(b, i, head), h, head)
    ensures Sized(Merged(b, i), h - 1, false)
  {
    var l := b.nodes[i].blk;
    var c := b.nodes[i + 1].blk;
    assert Sized(l, h - 1, false) && Sized(c, h - 1, false);
    var m := Merged(b, i);
    if m.Branch? {
      forall j | 0 <= j < |m.nodes| ensures Sized(m.nodes[j].blk, h - 2, false) {
        if j < |l.nodes| { assert m.nodes[j] == l.nodes[j]; }
        else { assert m.nodes[j] == c.nodes[j - |l.nodes|]; }
      }
    }
    if !(head && |b.nodes| == 2) {
      var r := MergeNode(b, i, head);
      forall j | 0 <= j < |r.nodes| ensures Sized(r.nodes[j].blk, h - 1, false) {
        if j < i { assert r.nodes[j] == b.nodes[j]; }
        else if j > i { assert r.nodes[j] == b.nodes[j + 1]; }
      }
    }
  }

  // ---------------------------------------------------------------------
  // Moving nodes between siblings.

  /** The number of nodes `ksl_shift_left` moves from a right sibling of `r` nodes to a left one of `l`. */
  function ShiftLeftCount(l: nat, r: nat): int {
    (l + r + 1) / 2 - l
  }

  /** The number of nodes `ksl_shift_right` moves from a left sibling of `l` nodes to a right one of `r`. */
  function ShiftRightCount(l: nat, r: nat): int {
    (l + r + 1) / 2 - r
  }

  /**
   * `ksl_shift_left`: the first nodes of the child at `i` move to the end
   * of the child at `i - 1`, which is then keyed by its new last key.
   */
  function ShiftLeft(b: Blk, i: nat): (r: Blk)
    requires b.Branch? && 0 < i < |b.nodes|
    requires b.nodes[i - 1].blk.Leaf? == b.nodes[i].blk.Leaf?
    requires Len(b.nodes[i - 1].blk) < MAX_NBLK && MIN_NBLK < Len(b.nodes[i].blk)
    requires var n := ShiftLeftCount(Len(b.nodes[i - 1].blk), Len(b.nodes[i].blk));
      0 < n && Len(b.nodes[i - 1].blk) <= MAX_NBLK - n && MIN_NBLK + n <= Len(b.nodes[i].blk)
    ensures r.Branch? && Len(r) == Len(b)
  {
    var l := b.nodes[i - 1].blk;
    var c := b.nodes[i].blk;
    var n := ShiftLeftCount(Len(l), Len(c));
    var l' := Append(l, Take(c, n));
    Branch(Splice(b.nodes, i - 1, i + 1, [KeyedBy(l'), Node(b.nodes[i].key, Drop(c, n))]))
  }

  /**
   * A left shift keeps the order, the entries, the last key and the
   * nodes around the two siblings, and leaves the left sibling with
   * `(l + r + 1) / 2` nodes of their `l + r`.
   */
  lemma ShiftLeftOk(b: Blk, h: nat, i: nat)
    requires Ordered(b, h) && b.Branch? && 0 < i < |b.nodes|
    requires b.nodes[i - 1].blk.Leaf? == b.nodes[i].blk.Leaf?
    requires Len(b.nodes[i - 1].blk) < MAX_NBLK && MIN_NBLK < Len(b.nodes[i].blk)
    requires var n := ShiftLeftCount(Len(b.nodes[i - 1].blk), Len(b.nodes[i].blk));
      0 < n && Len(b.nodes[i - 1].blk) <= MAX_NBLK - n && MIN_NBLK + n <= Len(b.nodes[i].blk)
    ensures Ordered(ShiftLeft(b, i), h)
    ensures Elems(ShiftLeft(b, i)) == Elems(b)
    ensures LastKey(ShiftLeft(b, i)) == LastKey(b)
    ensures var r := ShiftLeft(b, i);
      var total := Len(b.nodes[i - 1].blk) + Len(b.nodes[i].blk);
      && Len(r.nodes[i - 1].blk) == (total + 1) / 2
      && Len(r.nodes[i].blk) == total - (total + 1) / 2
      && Elems(r.nodes[i - 1].blk) + Elems(r.nodes[i].blk) == Elems(b.nodes[i - 1].blk) + Elems(b.nodes[i].blk)
      && r.nodes[..i - 1] == b.nodes[..i - 1] && r.nodes[i + 1..] == b.nodes[i + 1..]
  {
    var nodes := b.nodes;
    assert NodesOk(nodes, h - 1);
    var x := nodes[i - 1];
    var y := nodes[i];
    assert NodeOk(x, h - 1) && NodeOk(y, h - 1) && Linked(x, y);
    var n := ShiftLeftCount(Len(x.blk), Len(y.blk));
    ShiftLeftPair(x, y, h - 1, n);
    var x', y' := KeyedBy(Append(x.blk, Take(y.blk, n))), Node(y.key, Drop(y.blk, n));
    assert ShiftLeft(b, i) == Branch(Splice(nodes, i - 1, i + 1, [x', y']));
    ReplacePair(b, h, i - 1, x', y');
  }

  /** The two siblings after a left shift of `n` nodes: valid, in order, with the same entries. */
  lemma ShiftLeftPair(x: Node, y: Node, h: nat, n: nat)
    requires NodeOk(x, h) && NodeOk(y, h) && Linked(x, y)
    requires x.blk.Leaf? == y.blk.Leaf?
    requires 0 < n && Len(x.blk) <= MAX_NBLK - n && MIN_NBLK + n <= Len(y.blk)
    ensures var l' := Append(x.blk, Take(y.blk, n));
      var y' := Node(y.key, Drop(y.blk, n));
      && Len(l') > 0
      && NodeOk(KeyedBy(l'), h) && NodeOk(y', h) && Linked(KeyedBy(l'), y')
      && Elems(l') + Elems(y'.blk) == Elems(x.blk) + Elems(y.blk)
  {
    var l := x.blk;
    var c := y.blk;
    assert Tree(l, h, false) && Ordered(l, h);
    assert Tree(c, h, false) && Ordered(c, h);
    var t := Take(c, n);
    var d := Drop(c, n);
    ElemsTakeDrop(c, n);
    AboveSplit(Elems(t), Elems(d), x.key);
    AboveMono(Elems(t), x.key, LastKey(l));
    OrderedTake(c, h, n);
    OrderedDrop(c, h, n);
    OrderedAppend(l, t, h);
    ElemsAppend(l, t);
    LastKeyAppend(l, t);
    LastKeyDrop(c, n);
    TakeDropApart(c, h, n);
  }

  /**
   * Replacing the two siblings at `i` and `i + 1` by a valid pair with the
   * same entries, whose second key is not above the old one, keeps the
   * order and the entries; the last key is kept when the second key is.
   */
  lemma ReplacePair(b: Blk, h: nat, i: nat, x: Node, y: Node)
    requires Ordered(b, h) && b.Branch? && i + 1 < |b.nodes|
    requires h > 0 && NodeOk(x, h - 1) && NodeOk(y, h - 1) && Linked(x, y)
    requires Elems(x.blk) + Elems(y.blk) == Elems(b.nodes[i].blk) + Elems(b.nodes[i + 1].blk)
    requires y.key <= b.nodes[i + 1].key
    ensures var r := Branch(Splice(b.nodes, i, i + 2, [x, y]));
      && Ordered(r, h) && Elems(r) == Elems(b)
      && LastKey(r) <= LastKey(b)
      && (y.key == b.nodes[i + 1].key ==> LastKey(r) == LastKey(b))
      && r.nodes[i] == x && r.nodes[i + 1] == y
      && r.nodes[..i] == b.nodes[..i] && r.nodes[i + 2..] == b.nodes[i + 2..]
  {
    PairOk(x, y, h - 1);
    FlatRun2(b.nodes, i);
    ReplaceRun(b, h, i, i + 2, [x, y]);
    SpliceParts(b.nodes, i, i + 2, [x, y]);
  }

  lemma ShiftLeftSized(b: Blk, h: nat, root: bool, i: nat)
    requires Sized(b, h, root) && b.Branch? && 0 < i < |b.nodes|
    requires b.nodes[i - 1].blk.Leaf? == b.nodes[i].blk.Leaf?
    requires Len(b.nodes[i - 1].blk) < MAX_NBLK && MIN_NBLK < Len(b.nodes[i].blk)
    requires var n := ShiftLeftCount(Len(b.nodes[i - 1].blk), Len(b.nodes[i].blk));
      0 < n && Len(b.nodes[i - 1].blk) <= MAX_NBLK - n && MIN_NBLK + n <= Len(b.nodes[i].blk)
    ensures Sized(ShiftLeft(b, i), h, root)
  {
    var l := b.nodes[i - 1].blk;
    var c := b.nodes[i].blk;
    var n := ShiftLeftCount(Len(l), Len(c));
    var r := ShiftLeft(b, i);
    assert Sized(l, h - 1, false) && Sized(c, h - 1, false);
    var l' := r.nodes[i - 1].blk;
    var d := r.nodes[i].blk;
    if l'.Branch? {
      forall j | 0 <= j < |l'.nodes| ensures Sized(l'.nodes[j].blk, h - 2, false) {
        if j < |l.nodes| { assert l'.nodes[j] == l.nodes[j]; }
        else { assert l'.nodes[j] == c.nodes[j - |l.nodes|]; }
      }
      forall j | 0 <= j < |d.nodes| ensures Sized(d.nodes[j].blk, h - 2, false) {
        assert d.nodes[j] == c.nodes[n + j];
      }
    }
    forall j | 0 <= j < |r.nodes| ensures Sized(r.nodes[j].blk, h - 1, false) {
      if j < i - 1 || j > i { assert r.nodes[j] == b.nodes[j]; }
    }
  }

  /**
   * `ksl_shift_right`: the last nodes of the child at `i` move to the
   * front of the child at `i + 1`, and node `i` is keyed by its new last
   * key.
   */
  function ShiftRight(b: Blk, i: nat): (r: Blk)
    requires b.Branch? && i + 1 < |b.nodes|
    requires b.nodes[i].blk.Leaf? == b.nodes[i + 1].blk.Leaf?
    requires MIN_NBLK < Len(b.nodes[i].blk) && Len(b.nodes[i + 1].blk) < MAX_NBLK
    requires var n := ShiftRightCount(Len(b.nodes[i].blk), Len(b.nodes[i + 1].blk));
      0 < n && MIN_NBLK + n <= Len(b.nodes[i].blk) && Len(b.nodes[i + 1].blk) <= MAX_NBLK - n
    ensures r.Branch? && Len(r) == Len(b)
  {
    var l := b.nodes[i].blk;
    var c := b.nodes[i + 1].blk;
    var n := ShiftRightCount(Len(l), Len(c));
    var k := Len(l) - n;
    Branch(Splice(b.nodes, i, i + 2, [KeyedBy(Take(l, k)), Node(b.nodes[i + 1].key, Append(Drop(l, k), c))]))
  }

  /**
   * A right shift keeps the order, the entries, the last key and the
   * nodes around the two siblings, and leaves the right sibling with
   * `(l + r + 1) / 2` nodes of their `l + r`.
   */
  lemma ShiftRightOk(b: Blk, h: nat, i: nat)
    requires Ordered(b, h) && b.Branch? && i + 1 < |b.nodes|
    requires b.nodes[i].blk.Leaf? == b.nodes[i + 1].blk.Leaf?
    requires MIN_NBLK < Len(b.nodes[i].blk) && Len(b.nodes[i + 1].blk) < MAX_NBLK
    requires var n := ShiftRightCount(Len(b.nodes[i].blk), Len(b.nodes[i + 1].blk));
      0 < n && MIN_NBLK + n <= Len(b.nodes[i].blk) && Len(b.nodes[i + 1].blk) <= MAX_NBLK - n
    ensures Ordered(ShiftRight(b, i), h)
    ensures Elems(ShiftRight(b, i)) == Elems(b)
    ensures LastKey(ShiftRight(b, i)) == LastKey(b)
    ensures var r := ShiftRight(b, i);
      var total := Len(b.nodes[i].blk) + Len(b.nodes[i + 1].blk);
      && Len(r.nodes[i + 1].blk) == (total + 1) / 2
      && Len(r.nodes[i].blk) == total - (total + 1) / 2
      && Elems(r.nodes[i].blk) + Elems(r.nodes[i + 1].blk) == Elems(b.nodes[i].blk) + Elems(b.nodes[i + 1].blk)
      && r.nodes[..i] == b.nodes[..i] && r.nodes[i + 2..] == b.nodes[i + 2..]
  {
    var nodes := b.nodes;
    assert NodesOk(nodes, h - 1);
    var x := nodes[i];
    var y := nodes[i + 1];
    assert NodeOk(x, h - 1) && NodeOk(y, h - 1) && Linked(x, y);
    var n := ShiftRightCount(Len(x.blk), Len(y.blk));
    var k := Len(x.blk) - n;
    ShiftRightPair(x, y, h - 1, k);
    var x', y' := KeyedBy(Take(x.blk, k)), Node(y.key, Append(Drop(x.blk, k), y.blk));
    assert ShiftRight(b, i) == Branch(Splice(nodes, i, i + 2, [x', y']));
    ReplacePair(b, h, i, x', y');
  }

  /** The two siblings after a right shift that keeps `k` nodes on the left: valid, in order, with the same entries. */
  lemma ShiftRightPair(x: Node, y: Node, h: nat, k: nat)
    requires NodeOk(x, h) && NodeOk(y, h) && Linked(x, y)
    requires x.blk.Leaf? == y.blk.Leaf?
    requires MIN_NBLK <= k < Len(x.blk) && Len(y.blk) + (Len(x.blk) - k) <= MAX_NBLK
    ensures var t := Take(x.blk, k);
      var y' := Node(y.key, Append(Drop(x.blk, k), y.blk));
      && Len(t) > 0
      && NodeOk(KeyedBy(t), h) && NodeOk(y', h) && Linked(KeyedBy(t), y')
      && Elems(t) + Elems(y'.blk) == Elems(x.blk) + Elems(y.blk)
  {
    var l := x.blk;
    var c := y.blk;
    assert Tree(l, h, false) && Ordered(l, h);
    assert Tree(c, h, false) && Ordered(c, h);
    var t := Take(l, k);
    var d := Drop(l, k);
    ElemsTakeDrop(l, k);
    OrderedTake(l, h, k);
    OrderedDrop(l, h, k);
    LastKeyDrop(l, k);
    TakeDropApart(l, h, k);
    OrderedSorted(d, h);
    AboveMono(Elems(c), x.key, LastKey(d));
    OrderedAppend(d, c, h);
    ElemsAppend(d, c);
    LastKeyAppend(d, c);
    assert Elems(d)[0].key <= LastKey(d);
    AboveMono(Elems(c), LastKey(d), LastKey(t));
    AboveAppend(Elems(d), Elems(c), LastKey(t));
  }

  lemma ShiftRightSized(b: Blk, h: nat, root: bool, i: nat)
    requires Sized(b, h, root) && b.Branch? && i + 1 < |b.nodes|
    requires b.nodes[i].blk.Leaf? == b.nodes[i + 1].blk.Leaf?
    requires MIN_NBLK < Len(b.nodes[i].blk) && Len(b.nodes[i + 1].blk) < MAX_NBLK
    requires var n := ShiftRightCount(Len(b.nodes[i].blk), Len(b.nodes[i + 1].blk));
      0 < n && MIN_NBLK + n <= Len(b.nodes[i].blk) && Len(b.nodes[i + 1].blk) <= MAX_NBLK - n
    ensures Sized(ShiftRight(b, i), h, root)
  {
    var l := b.nodes[i].blk;
    var c := b.nodes[i + 1].blk;
    var n := ShiftRightCount(Len(l), Len(c));
    var k := Len(l) - n;
    var r := ShiftRight(b, i);
    assert Sized(l, h - 1, false) && Sized(c, h - 1, false);
    var t := r.nodes[i].blk;
    var c' := r.nodes[i + 1].blk;
    if t.Branch? {
      forall j | 0 <= j < |t.nodes| ensures Sized(t.nodes[j].blk, h - 2, false) {
        assert t.nodes[j] == l.nodes[j];
      }
      forall j | 0 <= j < |c'.nodes| ensures Sized(c'.nodes[j].blk, h - 2, false) {
        if j < n { assert c'.nodes[j] == l.nodes[k + j]; }
        else { assert c'.nodes[j] == c.nodes[j - n]; }
      }
    }
    forall j | 0 <= j < |r.nodes| ensures Sized(r.nodes[j].blk, h - 1, false) {
      if j < i || j > i + 1 { assert r.nodes[j] == b.nodes[j]; }
    }
  }

  // ---------------------------------------------------------------------
  // Descending into one child.

  /** The child the key falls under: valid, and the entries around it lie on either side of the key. */
  lemma ChildOk(b1: Blk, h: nat, root: bool, j: nat, key: int)
    requires Tree(b1, h, root) && b1.Branch? && j < |b1.nodes|
    requires (j > 0 ==> b1.nodes[j - 1].key < key) && (j + 1 < |b1.nodes| ==> key <= b1.nodes[j].key)
    ensures h > 0
    ensures Tree(b1.nodes[j].blk, h - 1, false) && Len(b1.nodes[j].blk) > 0
    ensures Elems(b1) == Flat(b1.nodes[..j]) + Elems(b1.nodes[j].blk) + Flat(b1.nodes[j + 1..])
    ensures Under(Flat(b1.nodes[..j]), key) && Above(Flat(b1.nodes[j + 1..]), key)
  {
    var nodes := b1.nodes;
    assert NodesOk(nodes, h - 1);
    assert NodeOk(nodes[j], h - 1);
    FlatAt(nodes, j);
    if j > 0 { PrefixUnder(nodes, h - 1, j, key); }
    if j + 1 < |nodes| {
      SuffixAbove(nodes, h - 1, j);
      AboveMono(Flat(nodes[j + 1..]), nodes[j].key, key);
    } else {
      assert nodes[j + 1..] == [];
    }
  }

  /**
   * Replacing node `j` of an internal block by a valid node that fits
   * between its neighbours keeps the block ordered; the entries are those
   * of the new node in place of the old node's.
   */
  lemma ReplaceNode(b: Blk, h: nat, j: nat, nd: Node)
    requires Ordered(b, h) && b.Branch? && j < |b.nodes|
    requires h > 0 && NodeOk(nd, h - 1)
    requires j > 0 ==> Linked(b.nodes[j - 1], nd)
    requires j + 1 < |b.nodes| ==> Linked(nd, b.nodes[j + 1])
    ensures var r := Branch(b.nodes[j := nd]);
      && Ordered(r, h)
      && Elems(b) == Flat(b.nodes[..j]) + Elems(b.nodes[j].blk) + Flat(b.nodes[j + 1..])
      && Elems(r) == Flat(b.nodes[..j]) + Elems(nd.blk) + Flat(b.nodes[j + 1..])
      && LastKey(r) == (if j + 1 == |b.nodes| then nd.key else LastKey(b))
  {
    var nodes := b.nodes;
    var r := nodes[j := nd];
    assert NodesOk(nodes, h - 1);
    assert NodesOk(r, h - 1) by {
      forall m | 0 < m < |r| ensures Linked(r[m - 1], r[m]) {
        if m != j && m - 1 != j {
          assert Linked(nodes[m - 1], nodes[m]);
        }
      }
    }
    FlatAt(nodes, j);
    FlatAt(r, j);
    assert r[..j] == nodes[..j] && r[j + 1..] == nodes[j + 1..];
  }
}
