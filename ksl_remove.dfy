/**
 * Removal from the key skip list (`nghttp3_ksl_remove`,
 * lib/nghttp3_ksl.c:554-636).  On the way down every child entered holds
 * more than MIN_NBLK nodes, so that removing below it cannot leave it too
 * small: a child at the minimum first borrows from a sibling that can
 * spare nodes, or else is merged with a sibling.  A head with two minimal
 * children is merged into one block first, lowering the height.  Node
 * keys are not updated on the way back, so they stay upper bounds of
 * their subtrees.
 */
module KslRemove {
  import opened KslTree
  import opened KslSpec
  import opened KslBlk
  import opened KslIt

  // ---------------------------------------------------------------------
  // The operation.

  /**
   * One level of the descent (ksl.c:578-635): a key above every node key,
   * or a leaf without it, is refused; a leaf holding it loses it; an
   * internal block makes the selected child able to lose a node and
   * descends into it.
   */
  function RemoveBlk(b: Blk, h: nat, head: bool, key: int): (r: (Blk, bool))
    requires Sized(b, h, head) && (head || MIN_NBLK < Len(b))
    decreases h, 3
  {
    var i := Search(b, key);
    if i == Len(b) then (b, false)
    else
      match b
      case Leaf(ents) =>
        if key < ents[i].key then (b, false) else (RemoveNode(b, i), true)
      case Branch(nodes) => RemoveChild(b, h, head, i, key)
  }

  /**
   * The internal-block step (ksl.c:606-635): enter child `i` if it can
   * lose a node; otherwise let it borrow from its right sibling, or from
   * its left one, or merge it with its right sibling, or with its left one
   * when it is the last node.
   */
  function RemoveChild(b: Blk, h: nat, head: bool, i: nat, key: int): (r: (Blk, bool))
    requires Sized(b, h, head) && (head || MIN_NBLK < Len(b)) && b.Branch? && i < |b.nodes|
    decreases h, 2
  {
    var nodes := b.nodes;
    SizedKinds(b, h, head);
    if MIN_NBLK < Len(nodes[i].blk) then
      Down(b, h, head, i, key)
    else if i + 1 < |nodes| && MIN_NBLK < Len(nodes[i + 1].blk) then
      BorrowRight(b, h, head, i, key)
    else if i > 0 && MIN_NBLK < Len(nodes[i - 1].blk) then
      BorrowLeft(b, h, head, i, key)
    else if i + 1 < |nodes| then
      MergeDown(b, h, head, i, key)
    else
      MergeDown(b, h, head, i - 1, key)
  }

  /** `ksl_shift_left` into the minimal child `i` from its right sibling, then descend into it. */
  function BorrowRight(b: Blk, h: nat, head: bool, i: nat, key: int): (r: (Blk, bool))
    requires Sized(b, h, head) && b.Branch? && i + 1 < |b.nodes|
    requires Len(b.nodes[i].blk) == MIN_NBLK < Len(b.nodes[i + 1].blk)
    decreases h, 1
  {
    BorrowRightFits(b, h, head, i);
    Down(ShiftLeft(b, i + 1), h, head, i, key)
  }

  /** The left shift into the minimal child `i` applies, and leaves that child able to lose a node. */
  lemma BorrowRightFits(b: Blk, h: nat, head: bool, i: nat)
    requires Sized(b, h, head) && b.Branch? && i + 1 < |b.nodes|
    requires Len(b.nodes[i].blk) == MIN_NBLK < Len(b.nodes[i + 1].blk)
    ensures b.nodes[i].blk.Leaf? == b.nodes[i + 1].blk.Leaf?
    ensures var n := ShiftLeftCount(Len(b.nodes[i].blk), Len(b.nodes[i + 1].blk));
      0 < n && Len(b.nodes[i].blk) <= MAX_NBLK - n && MIN_NBLK + n <= Len(b.nodes[i + 1].blk)
    ensures var s := ShiftLeft(b, i + 1);
      Sized(s, h, head) && i < |s.nodes| && MIN_NBLK < Len(s.nodes[i].blk)
  {
    SizedKinds(b, h, head);
    ShiftLeftFits(Len(b.nodes[i].blk), Len(b.nodes[i + 1].blk));
    ShiftLeftSized(b, h, head, i + 1);
    ShiftLeftLens(b, i + 1);
  }

  /** `ksl_shift_right` into the minimal child `i` from its left sibling, then descend into it. */
  function BorrowLeft(b: Blk, h: nat, head: bool, i: nat, key: int): (r: (Blk, bool))
    requires Sized(b, h, head) && b.Branch? && 0 < i < |b.nodes|
    requires Len(b.nodes[i].blk) == MIN_NBLK < Len(b.nodes[i - 1].blk)
    decreases h, 1
  {
    BorrowLeftFits(b, h, head, i);
    Down(ShiftRight(b, i - 1), h, head, i, key)
  }

  /** The right shift into the minimal child `i` applies, and leaves that child able to lose a node. */
  lemma BorrowLeftFits(b: Blk, h: nat, head: bool, i: nat)
    requires Sized(b, h, head) && b.Branch? && 0 < i < |b.nodes|
    requires Len(b.nodes[i].blk) == MIN_NBLK < Len(b.nodes[i - 1].blk)
    ensures b.nodes[i - 1].blk.Leaf? == b.nodes[i].blk.Leaf?
    ensures var n := ShiftRightCount(Len(b.nodes[i - 1].blk), Len(b.nodes[i].blk));
      0 < n && MIN_NBLK + n <= Len(b.nodes[i - 1].blk) && Len(b.nodes[i].blk) <= MAX_NBLK - n
    ensures var s := ShiftRight(b, i - 1);
      Sized(s, h, head) && i < |s.nodes| && MIN_NBLK < Len(s.nodes[i].blk)
  {
    SizedKinds(b, h, head);
    ShiftRightFits(Len(b.nodes[i - 1].blk), Len(b.nodes[i].blk));
    ShiftRightSized(b, h, head, i - 1);
    ShiftRightLens(b, i - 1);
  }

  /** Descend into child `j`, which can lose a node, and put the result back under the same key. */
  function Down(b: Blk, h: nat, head: bool, j: nat, key: int): (r: (Blk, bool))
    requires Sized(b, h, head) && b.Branch? && j < |b.nodes| && MIN_NBLK < Len(b.nodes[j].blk)
    decreases h, 0
  {
    var c := RemoveBlk(b.nodes[j].blk, h - 1, false, key);
    (Branch(b.nodes[j := Node(b.nodes[j].key, c.0)]), c.1)
  }

  /**
   * `ksl_merge_node` on two minimal children at `i` and `i + 1`, then
   * descend into the merged block: below the head when the head had just
   * these two nodes, as the new head.
   */
  function MergeDown(b: Blk, h: nat, head: bool, i: nat, key: int): (r: (Blk, bool))
    requires Sized(b, h, head) && (head || MIN_NBLK < Len(b)) && b.Branch? && i + 1 < |b.nodes|
    requires Len(b.nodes[i].blk) == MIN_NBLK && Len(b.nodes[i + 1].blk) == MIN_NBLK
    decreases h, 1
  {
    MergeNodeSized(b, h, i, head);
    var m := MergeNode(b, i, head);
    if head && |b.nodes| == 2 then RemoveBlk(m, h - 1, true, key)
    else
      MergeParts(b, i, head);
      Down(m, h, head, i, key)
  }

  /**
   * The pre-merge of `nghttp3_ksl_remove` (ksl.c:565-570): an internal
   * head whose two children are both minimal is replaced by their merge.
   */
  function Premerge(b: Blk, h: nat): (r: (Blk, nat))
    requires Sized(b, h, true)
    ensures Sized(r.0, r.1, true)
  {
    if b.Branch? && |b.nodes| == 2 && Len(b.nodes[0].blk) == MIN_NBLK && Len(b.nodes[1].blk) == MIN_NBLK then
      MergeNodeSized(b, h, 0, true);
      (MergeNode(b, 0, true), h - 1)
    else (b, h)
  }

  /**
   * `nghttp3_ksl_remove_hint` when the hinted leaf can lose an entry
   * (ksl.c:535-541): entry `i` of leaf `lf` is removed in place.  In the
   * value model the leaf is reached by its index in the leaf chain and
   * the blocks on its path are rebuilt around it, keys unchanged.
   */
  function RemoveAt(b: Blk, lf: nat, i: nat): (r: Blk)
    requires lf < |Leaves(b)| && i < |Leaves(b)[lf]|
    decreases b
  {
    match b
    case Leaf(ents) => RemoveNode(b, i)
    case Branch(nodes) =>
      assert nodes[..0] == [];
      var j := Locate(nodes, lf, 0);
      LeavesAt(nodes, j);
      var q := lf - |LeavesOf(nodes[..j])|;
      assert Leaves(nodes[j].blk)[q] == Leaves(b)[lf];
      Branch(nodes[j := Node(nodes[j].key, RemoveAt(nodes[j].blk, q, i))])
  }

  /** The node whose subtree holds leaf `lf` of the chain, searching from node `j`. */
  function Locate(nodes: seq<Node>, lf: nat, j: nat): (r: nat)
    requires j < |nodes| && |LeavesOf(nodes[..j])| <= lf < |LeavesOf(nodes)|
    ensures j <= r < |nodes|
    ensures |LeavesOf(nodes[..r])| <= lf < |LeavesOf(nodes[..r])| + |Leaves(nodes[r].blk)|
    decreases |nodes| - j
  {
    LeavesPrefix(nodes, j);
    if lf < |LeavesOf(nodes[..j])| + |Leaves(nodes[j].blk)| then j
    else
      assert nodes[..|nodes|] == nodes;
      Locate(nodes, lf, j + 1)
  }

  lemma LeavesPrefix(nodes: seq<Node>, j: nat)
    requires j < |nodes|
    ensures LeavesOf(nodes[..j + 1]) == LeavesOf(nodes[..j]) + Leaves(nodes[j].blk)
  {
    assert nodes[..j + 1][..j] == nodes[..j];
  }

  // ---------------------------------------------------------------------
  // Size facts.

  /** The children of a sized internal block are all leaves or all internal. */
  lemma SizedKinds(b: Blk, h: nat, root: bool)
    requires Sized(b, h, root) && b.Branch?
    ensures forall j :: 0 <= j < |b.nodes| ==> Sized(b.nodes[j].blk, h - 1, false)
    ensures forall j :: 0 <= j < |b.nodes| ==> (b.nodes[j].blk.Leaf? <==> h == 1)
  {
  }

  /** A minimal left sibling can take the left shift's count from a right sibling above the minimum. */
  lemma ShiftLeftFits(l: nat, r: nat)
    requires l == MIN_NBLK < r <= MAX_NBLK
    ensures var n := ShiftLeftCount(l, r);
      0 < n && l <= MAX_NBLK - n && MIN_NBLK + n <= r && MIN_NBLK < (l + r + 1) / 2
  {
  }

  /** A minimal right sibling can take the right shift's count from a left sibling above the minimum. */
  lemma ShiftRightFits(l: nat, r: nat)
    requires r == MIN_NBLK < l <= MAX_NBLK
    ensures var n := ShiftRightCount(l, r);
      0 < n && MIN_NBLK + n <= l && r <= MAX_NBLK - n && MIN_NBLK < (l + r + 1) / 2
  {
  }

  lemma ShiftLeftLens(b: Blk, i: nat)
    requires b.Branch? && 0 < i < |b.nodes|
    requires b.nodes[i - 1].blk.Leaf? == b.nodes[i].blk.Leaf?
    requires Len(b.nodes[i - 1].blk) < MAX_NBLK && MIN_NBLK < Len(b.nodes[i].blk)
    requires var n := ShiftLeftCount(Len(b.nodes[i - 1].blk), Len(b.nodes[i].blk));
      0 < n && Len(b.nodes[i - 1].blk) <= MAX_NBLK - n && MIN_NBLK + n <= Len(b.nodes[i].blk)
    ensures var r := ShiftLeft(b, i);
      var total := Len(b.nodes[i - 1].blk) + Len(b.nodes[i].blk);
      |r.nodes| == |b.nodes| && Len(r.nodes[i - 1].blk) == (total + 1) / 2
  {
    var l := b.nodes[i - 1].blk;
    var c := b.nodes[i].blk;
    var n := ShiftLeftCount(Len(l), Len(c));
    var l' := Append(l, Take(c, n));
    SpliceParts(b.nodes, i - 1, i + 1, [KeyedBy(l'), Node(b.nodes[i].key, Drop(c, n))]);
  }

  lemma ShiftRightLens(b: Blk, i: nat)
    requires b.Branch? && i + 1 < |b.nodes|
    requires b.nodes[i].blk.Leaf? == b.nodes[i + 1].blk.Leaf?
    requires MIN_NBLK < Len(b.nodes[i].blk) && Len(b.nodes[i + 1].blk) < MAX_NBLK
    requires var n := ShiftRightCount(Len(b.nodes[i].blk), Len(b.nodes[i + 1].blk));
      0 < n && MIN_NBLK + n <= Len(b.nodes[i].blk) && Len(b.nodes[i + 1].blk) <= MAX_NBLK - n
    ensures var r := ShiftRight(b, i);
      var total := Len(b.nodes[i].blk) + Len(b.nodes[i + 1].blk);
      |r.nodes| == |b.nodes| && Len(r.nodes[i + 1].blk) == (total + 1) / 2
  {
    var l := b.nodes[i].blk;
    var c := b.nodes[i + 1].blk;
    var n := ShiftRightCount(Len(l), Len(c));
    var k := Len(l) - n;
    SpliceParts(b.nodes, i, i + 2, [KeyedBy(Take(l, k)), Node(b.nodes[i + 1].key, Append(Drop(l, k), c))]);
  }

  lemma MergeParts(b: Blk, i: nat, head: bool)
    requires b.Branch? && i + 1 < |b.nodes|
    requires b.nodes[i].blk.Leaf? == b.nodes[i + 1].blk.Leaf?
    requires Len(b.nodes[i].blk) + Len(b.nodes[i + 1].blk) < MAX_NBLK
    requires 0 < Len(b.nodes[i].blk) + Len(b.nodes[i + 1].blk)
    requires !(head && |b.nodes| == 2)
    ensures var r := MergeNode(b, i, head);
      r.Branch? && i < |r.nodes| && r.nodes[i].blk == Merged(b, i)
  {
    SpliceParts(b.nodes, i, i + 2, [KeyedBy(Merged(b, i))]);
  }

  // ---------------------------------------------------------------------
  // Correctness.

  /**
   * The entries after removing `key`: `ok` says whether it was present,
   * and exactly then its entry is gone and nothing else changed.
   */
  ghost predicate Gone(s: seq<Ent>, t: seq<Ent>, ok: bool, key: int) {
    && (ok <==> HasKey(s, key))
    && (if ok then Rank(s, key) < |s| && t == Del(s, key) else t == s)
  }

  /**
   * What one level of the removal achieves: the result is valid (a head
   * of whatever height it now has, or a non-head block of the same
   * height), `key` is gone exactly when it was present, and a non-head
   * block's last key does not grow, so that the node above it still bounds
   * it.
   */
  ghost predicate Removed(b: Blk, r: (Blk, bool), h: nat, head: bool, key: int) {
    && (if head then Tree(r.0, Height(r.0), true) else Tree(r.0, h, false))
    && Gone(Elems(b), Elems(r.0), r.1, key)
    && (!head ==> Len(b) > 0 && Len(r.0) > 0 && LastKey(r.0) <= LastKey(b))
  }

  /**
   * `nghttp3_ksl_remove` below a block that can lose a node: see `Removed`.
   * (The first postcondition only says that the operation applies to every
   * valid block.)
   */
  lemma {:induction false} RemoveBlkOk(b: Blk, h: nat, head: bool, key: int)
    requires Tree(b, h, head) && (head || MIN_NBLK < Len(b))
    ensures Sized(b, h, head)
    ensures Removed(b, RemoveBlk(b, h, head, key), h, head, key)
    decreases h, 4
  {
    TreeSized(b, h, head);
    var i := Search(b, key);
    if i == Len(b) {
      RemoveMissOk(b, h, head, key);
    } else if b.Leaf? {
      RemoveLeafOk(b, head, key);
    } else {
      RemoveBranchOk(b, h, head, key);
    }
  }

  /** A block is valid in the sense of `Removed` when it is valid at its own height. */
  lemma TreeRemoved(b: Blk, h: nat, head: bool)
    requires Tree(b, h, head)
    ensures if head then Tree(b, Height(b), true) else Tree(b, h, false)
  {
    TreeSized(b, h, head);
    SizedHeight(b, h, head);
  }

  /** A key above every node key is not present: the block is returned as it is. */
  lemma RemoveMissOk(b: Blk, h: nat, head: bool, key: int)
    requires Tree(b, h, head) && Sized(b, h, head) && (head || MIN_NBLK < Len(b))
    requires Search(b, key) == Len(b)
    ensures Removed(b, RemoveBlk(b, h, head, key), h, head, key)
  {
    assert RemoveBlk(b, h, head, key) == (b, false);
    TreeRemoved(b, h, head);
    TreeSorted(b, h, head);
    if Len(b) > 0 {
      assert NthKey(b, Len(b) - 1) < key;
      var s := Elems(b);
      assert forall j :: 0 <= j < |s| ==> s[j].key < key;
    } else {
      assert b.Leaf? && Elems(b) == [];
    }
  }

  /** The leaf step: refuse an absent key, remove a present one. */
  lemma RemoveLeafOk(b: Blk, head: bool, key: int)
    requires Tree(b, 0, head) && Sized(b, 0, head) && (head || MIN_NBLK < Len(b)) && b.Leaf?
    requires Search(b, key) < Len(b)
    ensures Removed(b, RemoveBlk(b, 0, head, key), 0, head, key)
  {
    var ents := b.ents;
    var i := Search(b, key);
    SearchLeaf(ents, key);
    TreeSorted(b, 0, head);
    HasKeyRank(ents, key);
    if key < ents[i].key {
      assert RemoveBlk(b, 0, head, key) == (b, false);
    } else {
      assert RemoveBlk(b, 0, head, key) == (RemoveNode(b, i), true);
      LeafDeleted(b, head, key);
    }
  }

  /** Removing a present key from a leaf that can lose an entry deletes exactly that entry. */
  lemma LeafDeleted(b: Blk, head: bool, key: int)
    requires Tree(b, 0, head) && b.Leaf? && (head || MIN_NBLK < Len(b)) && HasKey(b.ents, key)
    ensures Rank(b.ents, key) < |b.ents|
    ensures var r := RemoveNode(b, Rank(b.ents, key));
      && Tree(r, 0, head) && Elems(r) == Del(Elems(b), key)
      && (!head ==> Len(r) > 0 && LastKey(r) <= LastKey(b))
  {
    var ents := b.ents;
    TreeSorted(b, 0, head);
    HasKeyRank(ents, key);
    var i := Rank(ents, key);
    RemoveNodeDel(b, key);
    DelSorted(ents, key);
    assert RemoveNode(b, i) == Leaf(Without(ents, i));
    if !head {
      WithoutLast(ents, i);
    }
  }

  /** The internal-block step of `RemoveBlkOk` when the search selects node `i`. */
  lemma {:induction false} RemoveBranchOk(b: Blk, h: nat, head: bool, key: int)
    requires Tree(b, h, head) && Sized(b, h, head) && (head || MIN_NBLK < Len(b)) && b.Branch?
    requires Search(b, key) < Len(b)
    ensures Removed(b, RemoveBlk(b, h, head, key), h, head, key)
    decreases h, 3
  {
    var nodes := b.nodes;
    var n := |nodes|;
    var i := Search(b, key);
    assert RemoveBlk(b, h, head, key) == RemoveChild(b, h, head, i, key);
    assert Ordered(b, h) && NodesOk(nodes, h - 1);
    assert NodeOk(nodes[i], h - 1);
    assert key <= nodes[i].key by { assert NthKey(b, i) == nodes[i].key; }
    assert i > 0 ==> nodes[i - 1].key < key by {
      if i > 0 { assert NthKey(b, i - 1) == nodes[i - 1].key; }
    }
    if MIN_NBLK < Len(nodes[i].blk) {
      assert RemoveChild(b, h, head, i, key) == Down(b, h, head, i, key);
      DownOk(b, h, head, i, key);
    } else if i + 1 < n && MIN_NBLK < Len(nodes[i + 1].blk) {
      assert RemoveChild(b, h, head, i, key) == BorrowRight(b, h, head, i, key);
      BorrowRightOk(b, h, head, i, key);
    } else if i > 0 && MIN_NBLK < Len(nodes[i - 1].blk) {
      assert NodeOk(nodes[i - 1], h - 1);
      assert RemoveChild(b, h, head, i, key) == BorrowLeft(b, h, head, i, key);
      BorrowLeftOk(b, h, head, i, key);
    } else if i + 1 < n {
      assert NodeOk(nodes[i + 1], h - 1);
      assert RemoveChild(b, h, head, i, key) == MergeDown(b, h, head, i, key);
      MergeDownOk(b, h, head, i, key);
    } else {
      assert n >= 2;
      assert NodeOk(nodes[i - 1], h - 1);
      if i > 1 { NodeKeysAscend(nodes, h - 1, i - 2, i - 1); }
      assert RemoveChild(b, h, head, i, key) == MergeDown(b, h, head, i - 1, key);
      MergeDownOk(b, h, head, i - 1, key);
    }
  }

  /** A minimal child whose right sibling can spare nodes borrows from it, then loses the key. */
  lemma {:induction false} BorrowRightOk(b: Blk, h: nat, head: bool, i: nat, key: int)
    requires Tree(b, h, head) && Sized(b, h, head) && b.Branch? && i + 1 < |b.nodes|
    requires Len(b.nodes[i].blk) == MIN_NBLK < Len(b.nodes[i + 1].blk)
    requires (i > 0 ==> b.nodes[i - 1].key < key) && key <= b.nodes[i].key
    ensures Removed(b, BorrowRight(b, h, head, i, key), h, head, key)
    decreases h, 2
  {
    var s := BorrowedRight(b, h, head, i, key);
    ShiftedDownOk(b, s, BorrowRight(b, h, head, i, key), h, head, i, key);
  }

  /** The block after the left shift into child `i`, and what the descent into it needs. */
  lemma BorrowedRight(b: Blk, h: nat, head: bool, i: nat, key: int) returns (s: Blk)
    requires Tree(b, h, head) && Sized(b, h, head) && b.Branch? && i + 1 < |b.nodes|
    requires Len(b.nodes[i].blk) == MIN_NBLK < Len(b.nodes[i + 1].blk)
    requires (i > 0 ==> b.nodes[i - 1].key < key) && key <= b.nodes[i].key
    ensures Tree(s, h, head) && Sized(s, h, head) && s.Branch? && i < |s.nodes| && MIN_NBLK < Len(s.nodes[i].blk)
    ensures (i > 0 ==> s.nodes[i - 1].key < key) && (i + 1 < |s.nodes| ==> key <= s.nodes[i].key)
    ensures Elems(s) == Elems(b) && Len(s) == Len(b) && LastKey(s) == LastKey(b)
    ensures BorrowRight(b, h, head, i, key) == Down(s, h, head, i, key)
  {
    ShiftLeftFacts(b, h, head, i + 1);
    s := ShiftLeft(b, i + 1);
  }

  /** A minimal child whose left sibling can spare nodes borrows from it, then loses the key. */
  lemma {:induction false} BorrowLeftOk(b: Blk, h: nat, head: bool, i: nat, key: int)
    requires Tree(b, h, head) && Sized(b, h, head) && b.Branch? && 0 < i < |b.nodes|
    requires Len(b.nodes[i].blk) == MIN_NBLK < Len(b.nodes[i - 1].blk)
    requires b.nodes[i - 1].key < key && key <= b.nodes[i].key
    ensures Removed(b, BorrowLeft(b, h, head, i, key), h, head, key)
    decreases h, 2
  {
    ShiftRightFacts(b, h, head, i - 1);
    var s := ShiftRight(b, i - 1);
    ShiftedDownOk(b, s, BorrowLeft(b, h, head, i, key), h, head, i, key);
  }

  /** Descending into child `j` of a block with the same entries as `b` removes the key from `b`. */
  lemma {:induction false} ShiftedDownOk(b: Blk, s: Blk, r: (Blk, bool), h: nat, head: bool, j: nat, key: int)
    requires Tree(s, h, head) && Sized(s, h, head) && s.Branch? && j < |s.nodes| && MIN_NBLK < Len(s.nodes[j].blk)
    requires (j > 0 ==> s.nodes[j - 1].key < key) && (j + 1 < |s.nodes| ==> key <= s.nodes[j].key)
    requires Elems(s) == Elems(b) && Len(s) == Len(b) && LastKey(s) == LastKey(b)
    requires r == Down(s, h, head, j, key)
    ensures Removed(b, r, h, head, key)
    decreases h, 1
  {
    DownOk(s, h, head, j, key);
    RemovedSame(b, s, Down(s, h, head, j, key), h, h, head, key);
  }

  /** Two minimal children merged, then the key removed from the merged block. */
  lemma {:induction false} MergeDownOk(b: Blk, h: nat, head: bool, i: nat, key: int)
    requires Tree(b, h, head) && Sized(b, h, head) && (head || MIN_NBLK < Len(b)) && b.Branch? && i + 1 < |b.nodes|
    requires Len(b.nodes[i].blk) == MIN_NBLK && Len(b.nodes[i + 1].blk) == MIN_NBLK
    requires (i > 0 ==> b.nodes[i - 1].key < key) && (i + 2 < |b.nodes| ==> key <= b.nodes[i].key)
    ensures Removed(b, MergeDown(b, h, head, i, key), h, head, key)
    decreases h, 1
  {
    MergeNodeSized(b, h, i, head);
    MergeNodeOk(b, h, i, head);
    var m := MergeNode(b, i, head);
    if head && |b.nodes| == 2 {
      assert MergeDown(b, h, head, i, key) == RemoveBlk(m, h - 1, true, key);
      RemoveBlkOk(m, h - 1, true, key);
      RemovedSame(b, m, RemoveBlk(m, h - 1, true, key), h, h - 1, head, key);
    } else {
      MergeParts(b, i, head);
      assert MergeDown(b, h, head, i, key) == Down(m, h, head, i, key);
      assert Ordered(m, h) && NodesOk(m.nodes, h - 1);
      assert NodeOk(m.nodes[i], h - 1);
      MergedKey(b, h, i);
      if i > 0 { assert m.nodes[i - 1] == m.nodes[..i][i - 1]; }
      DownOk(m, h, head, i, key);
      RemovedSame(b, m, Down(m, h, head, i, key), h, h, head, key);
    }
  }

  /**
   * Descending into child `j`, which can lose a node: the key lies above
   * the node before it and, unless it is the last node, at most its key.
   */
  lemma {:induction false} DownOk(b: Blk, h: nat, head: bool, j: nat, key: int)
    requires Tree(b, h, head) && b.Branch? && j < |b.nodes|
    requires MIN_NBLK < Len(b.nodes[j].blk)
    requires (j > 0 ==> b.nodes[j - 1].key < key) && (j + 1 < |b.nodes| ==> key <= b.nodes[j].key)
    ensures Sized(b, h, head)
    ensures Removed(b, Down(b, h, head, j, key), h, head, key)
    decreases h, 0
  {
    TreeSized(b, h, head);
    ChildOk(b, h, head, j, key);
    var c := b.nodes[j].blk;
    RemoveBlkOk(c, h - 1, false, key);
    var rc := RemoveBlk(c, h - 1, false, key);
    PutBackOk(b, h, head, j, rc, key);
    assert Down(b, h, head, j, key) == (Branch(b.nodes[j := Node(b.nodes[j].key, rc.0)]), rc.1);
    TreeRemoved(Branch(b.nodes[j := Node(b.nodes[j].key, rc.0)]), h, head);
  }

  /** Putting the child back after removing from it. */
  lemma PutBackOk(b: Blk, h: nat, head: bool, j: nat, rc: (Blk, bool), key: int)
    requires Tree(b, h, head) && b.Branch? && j < |b.nodes| && h > 0
    requires Tree(b.nodes[j].blk, h - 1, false) && Len(b.nodes[j].blk) > 0
    requires Elems(b) == Flat(b.nodes[..j]) + Elems(b.nodes[j].blk) + Flat(b.nodes[j + 1..])
    requires Under(Flat(b.nodes[..j]), key) && Above(Flat(b.nodes[j + 1..]), key)
    requires Removed(b.nodes[j].blk, rc, h - 1, false, key)
    ensures var r := Branch(b.nodes[j := Node(b.nodes[j].key, rc.0)]);
      && Tree(r, h, head)
      && Gone(Elems(b), Elems(r), rc.1, key)
      && Len(b) > 0 && Len(r) > 0 && LastKey(r) == LastKey(b)
  {
    var nodes := b.nodes;
    var c := nodes[j].blk;
    var nd := Node(nodes[j].key, rc.0);
    assert NodesOk(nodes, h - 1);
    assert NodeOk(nodes[j], h - 1);
    assert NodeOk(nd, h - 1);
    if j > 0 {
      assert Linked(nodes[j - 1], nodes[j]);
      if rc.1 {
        TreeSorted(c, h - 1, false);
        DelBounds(Elems(c), key, nodes[j - 1].key, LastKey(c));
      }
    }
    if j + 1 < |nodes| {
      assert Linked(nodes[j], nodes[j + 1]);
    }
    ReplaceNode(b, h, j, nd);
    var r := Branch(nodes[j := nd]);
    assert SizeOk(r, head);
    assert NthKey(b, |nodes| - 1) == nodes[|nodes| - 1].key;
    var pre := Flat(nodes[..j]);
    var post := Flat(nodes[j + 1..]);
    HasKeyMiddle(pre, Elems(c), post, key);
    if rc.1 {
      DelMiddle(pre, Elems(c), post, key);
    }
  }

  /** What the removal needs of a left shift into a minimal child `i - 1`. */
  lemma ShiftLeftFacts(b: Blk, h: nat, head: bool, i: nat)
    requires Tree(b, h, head) && Sized(b, h, head) && b.Branch? && 0 < i < |b.nodes|
    requires Len(b.nodes[i - 1].blk) == MIN_NBLK < Len(b.nodes[i].blk)
    ensures b.nodes[i - 1].blk.Leaf? == b.nodes[i].blk.Leaf?
    ensures var n := ShiftLeftCount(Len(b.nodes[i - 1].blk), Len(b.nodes[i].blk));
      0 < n && Len(b.nodes[i - 1].blk) <= MAX_NBLK - n && MIN_NBLK + n <= Len(b.nodes[i].blk)
    ensures var s := ShiftLeft(b, i);
      && Tree(s, h, head) && Sized(s, h, head)
      && Elems(s) == Elems(b) && LastKey(s) == LastKey(b)
      && |s.nodes| == |b.nodes| && (i > 1 ==> s.nodes[i - 2] == b.nodes[i - 2])
      && b.nodes[i - 1].key < s.nodes[i - 1].key
      && MIN_NBLK < Len(s.nodes[i - 1].blk)
  {
    SizedKinds(b, h, head);
    ShiftLeftFits(Len(b.nodes[i - 1].blk), Len(b.nodes[i].blk));
    ShiftLeftKey(b, h, i);
    ShiftLeftSized(b, h, head, i);
    ShiftLeftOk(b, h, i);
  }

  /** What the removal needs of a right shift into a minimal child `i + 1`. */
  lemma ShiftRightFacts(b: Blk, h: nat, head: bool, i: nat)
    requires Tree(b, h, head) && Sized(b, h, head) && b.Branch? && i + 1 < |b.nodes|
    requires MIN_NBLK < Len(b.nodes[i].blk) && Len(b.nodes[i + 1].blk) == MIN_NBLK
    ensures b.nodes[i].blk.Leaf? == b.nodes[i + 1].blk.Leaf?
    ensures var n := ShiftRightCount(Len(b.nodes[i].blk), Len(b.nodes[i + 1].blk));
      0 < n && MIN_NBLK + n <= Len(b.nodes[i].blk) && Len(b.nodes[i + 1].blk) <= MAX_NBLK - n
    ensures var s := ShiftRight(b, i);
      && Tree(s, h, head) && Sized(s, h, head)
      && Elems(s) == Elems(b) && LastKey(s) == LastKey(b)
      && |s.nodes| == |b.nodes|
      && s.nodes[i].key < b.nodes[i].key && s.nodes[i + 1].key == b.nodes[i + 1].key
      && MIN_NBLK < Len(s.nodes[i + 1].blk)
  {
    SizedKinds(b, h, head);
    ShiftRightFits(Len(b.nodes[i].blk), Len(b.nodes[i + 1].blk));
    ShiftRightKey(b, h, i);
    ShiftRightSized(b, h, head, i);
    ShiftRightOk(b, h, i);
  }

  /** A restructuring that keeps the entries (and a non-head block's last-key bound) keeps `Removed`. */
  lemma RemovedSame(b: Blk, s: Blk, r: (Blk, bool), h: nat, hs: nat, head: bool, key: int)
    requires Removed(s, r, hs, head, key) && (!head ==> hs == h)
    requires Elems(s) == Elems(b)
    requires !head ==> Len(b) > 0 && Len(s) > 0 && LastKey(s) <= LastKey(b)
    ensures Removed(b, r, h, head, key)
  {
  }

  /** After `ksl_shift_left` into node `i - 1`, its key has grown past the old one. */
  lemma ShiftLeftKey(b: Blk, h: nat, i: nat)
    requires Ordered(b, h) && b.Branch? && 0 < i < |b.nodes|
    requires b.nodes[i - 1].blk.Leaf? == b.nodes[i].blk.Leaf?
    requires Len(b.nodes[i - 1].blk) < MAX_NBLK && MIN_NBLK < Len(b.nodes[i].blk)
    requires var n := ShiftLeftCount(Len(b.nodes[i - 1].blk), Len(b.nodes[i].blk));
      0 < n && Len(b.nodes[i - 1].blk) <= MAX_NBLK - n && MIN_NBLK + n <= Len(b.nodes[i].blk)
    ensures b.nodes[i - 1].key < ShiftLeft(b, i).nodes[i - 1].key
  {
    var nodes := b.nodes;
    assert NodesOk(nodes, h - 1);
    var x := nodes[i - 1];
    var y := nodes[i];
    assert NodeOk(y, h - 1) && Linked(x, y);
    assert Tree(y.blk, h - 1, false);
    var n := ShiftLeftCount(Len(x.blk), Len(y.blk));
    var t := Take(y.blk, n);
    var l' := Append(x.blk, t);
    SpliceParts(nodes, i - 1, i + 1, [KeyedBy(l'), Node(y.key, Drop(y.blk, n))]);
    LastKeyAppend(x.blk, t);
    OrderedTake(y.blk, h - 1, n);
    OrderedSorted(t, h - 1);
    ElemsTakeDrop(y.blk, n);
    AboveSplit(Elems(t), Elems(Drop(y.blk, n)), x.key);
    assert x.key < Elems(t)[0].key <= LastKey(t);
  }

  /** After `ksl_shift_right` out of node `i`, its key has shrunk below the old one; node `i + 1` keeps its key. */
  lemma ShiftRightKey(b: Blk, h: nat, i: nat)
    requires Ordered(b, h) && b.Branch? && i + 1 < |b.nodes|
    requires b.nodes[i].blk.Leaf? == b.nodes[i + 1].blk.Leaf?
    requires MIN_NBLK < Len(b.nodes[i].blk) && Len(b.nodes[i + 1].blk) < MAX_NBLK
    requires var n := ShiftRightCount(Len(b.nodes[i].blk), Len(b.nodes[i + 1].blk));
      0 < n && MIN_NBLK + n <= Len(b.nodes[i].blk) && Len(b.nodes[i + 1].blk) <= MAX_NBLK - n
    ensures ShiftRight(b, i).nodes[i].key < b.nodes[i].key
    ensures ShiftRight(b, i).nodes[i + 1].key == b.nodes[i + 1].key
  {
    var nodes := b.nodes;
    assert NodesOk(nodes, h - 1);
    var x := nodes[i];
    var y := nodes[i + 1];
    assert NodeOk(x, h - 1);
    assert Tree(x.blk, h - 1, false);
    var n := ShiftRightCount(Len(x.blk), Len(y.blk));
    var k := Len(x.blk) - n;
    var t := Take(x.blk, k);
    var d := Drop(x.blk, k);
    SpliceParts(nodes, i, i + 2, [KeyedBy(t), Node(y.key, Append(d, y.blk))]);
    TakeDropApart(x.blk, h - 1, k);
    OrderedDrop(x.blk, h - 1, k);
    OrderedSorted(d, h - 1);
    LastKeyDrop(x.blk, k);
    assert LastKey(t) < Elems(d)[0].key <= LastKey(d);
  }

  /** The merged block of nodes `i` and `i + 1` ends above the key of node `i`. */
  lemma MergedKey(b: Blk, h: nat, i: nat)
    requires Ordered(b, h) && b.Branch? && i + 1 < |b.nodes|
    requires Len(b.nodes[i].blk) + Len(b.nodes[i + 1].blk) < MAX_NBLK
    ensures b.nodes[i].blk.Leaf? == b.nodes[i + 1].blk.Leaf? && 0 < Len(b.nodes[i + 1].blk)
    ensures b.nodes[i].key < LastKey(Merged(b, i))
  {
    var nodes := b.nodes;
    assert NodesOk(nodes, h - 1);
    MergedOk(b, h, i);
    var c := nodes[i + 1].blk;
    assert NodeOk(nodes[i + 1], h - 1) && Linked(nodes[i], nodes[i + 1]);
    LastKeyAppend(nodes[i].blk, c);
    TreeSorted(c, h - 1, false);
    assert nodes[i].key < Elems(c)[0].key <= LastKey(c);
  }

  /** The pre-merge keeps the entries and leaves a valid head of the height it returns. */
  lemma PremergeOk(b: Blk, h: nat)
    requires Tree(b, h, true)
    ensures Sized(b, h, true)
    ensures Tree(Premerge(b, h).0, Premerge(b, h).1, true)
    ensures Elems(Premerge(b, h).0) == Elems(b)
  {
    TreeSized(b, h, true);
    if b.Branch? && |b.nodes| == 2 && Len(b.nodes[0].blk) == MIN_NBLK && Len(b.nodes[1].blk) == MIN_NBLK {
      MergeNodeOk(b, h, 0, true);
    }
  }

  // ---------------------------------------------------------------------
  // Removal at a hinted position.

  /** The entries without the one at position `p`. */
  function Without(s: seq<Ent>, p: nat): seq<Ent>
    requires p < |s|
  {
    s[..p] + s[p + 1..]
  }

  /**
   * Position `p` of the entries is gone, the result is valid at the same
   * height, and its last key is no larger.
   */
  ghost predicate RemovedAt(b: Blk, r: Blk, h: nat, root: bool, p: nat) {
    && p < |Elems(b)|
    && Tree(r, h, root)
    && Elems(r) == Without(Elems(b), p)
    && Len(b) > 0 && Len(r) > 0 && LastKey(r) <= LastKey(b)
  }

  /**
   * Removing entry `i` of leaf `lf`, which holds more than MIN_NBLK
   * entries, keeps the block valid and removes exactly the entry at that
   * position of the chain, leaving the last key no larger.
   */
  lemma {:induction false} RemoveAtOk(b: Blk, h: nat, root: bool, lf: nat, i: nat)
    requires Tree(b, h, root) && lf < |Leaves(b)| && i < |Leaves(b)[lf]| && MIN_NBLK < |Leaves(b)[lf]|
    ensures RemovedAt(b, RemoveAt(b, lf, i), h, root, |Concat(Leaves(b)[..lf])| + i)
    decreases b, 2
  {
    if b.Leaf? {
      RemoveAtLeaf(b, root, i);
    } else {
      RemoveAtBranch(b, h, root, lf, i);
    }
  }

  lemma RemoveAtLeaf(b: Blk, root: bool, i: nat)
    requires Tree(b, 0, root) && b.Leaf? && i < |b.ents| && MIN_NBLK < |b.ents|
    ensures RemovedAt(b, RemoveAt(b, 0, i), 0, root, |Concat(Leaves(b)[..0])| + i)
  {
    var ents := b.ents;
    assert Leaves(b)[..0] == [];
    assert RemoveAt(b, 0, i) == Leaf(Without(ents, i));
    WithoutSorted(ents, i);
    WithoutLast(ents, i);
  }

  /** Dropping one entry of a sorted sequence of two or more leaves its last key no larger. */
  lemma WithoutLast(s: seq<Ent>, p: nat)
    requires Sorted(s) && p < |s| && 2 <= |s|
    ensures |Without(s, p)| == |s| - 1
    ensures Without(s, p)[|s| - 2].key <= s[|s| - 1].key
  {
    var t := Without(s, p);
    var n := |s|;
    if p == n - 1 {
      assert t[n - 2] == s[n - 2];
    } else {
      assert t[n - 2] == s[n - 1];
    }
  }

  lemma {:induction false} RemoveAtBranch(b: Blk, h: nat, root: bool, lf: nat, i: nat)
    requires Tree(b, h, root) && b.Branch? && lf < |Leaves(b)| && i < |Leaves(b)[lf]| && MIN_NBLK < |Leaves(b)[lf]|
    ensures RemovedAt(b, RemoveAt(b, lf, i), h, root, |Concat(Leaves(b)[..lf])| + i)
    decreases b, 1
  {
    var nodes := b.nodes;
    assert nodes[..0] == [];
    var j := Locate(nodes, lf, 0);
    LeavesAt(nodes, j);
    var q := lf - |LeavesOf(nodes[..j])|;
    var c := nodes[j].blk;
    assert Leaves(c)[q] == Leaves(b)[lf];
    var rc := RemoveAt(c, q, i);
    assert RemoveAt(b, lf, i) == Branch(nodes[j := Node(nodes[j].key, rc)]);
    ChildRemovedAt(b, h, root, lf, i, j, q);
  }

  /** Removing from the child that holds leaf `lf`, at leaf `q` of the child, and putting it back. */
  lemma {:induction false} ChildRemovedAt(b: Blk, h: nat, root: bool, lf: nat, i: nat, j: nat, q: nat)
    requires Tree(b, h, root) && b.Branch? && lf < |Leaves(b)| && i < |Leaves(b)[lf]| && MIN_NBLK < |Leaves(b)[lf]|
    requires j < |b.nodes| && LeavesOf(b.nodes) == LeavesOf(b.nodes[..j]) + Leaves(b.nodes[j].blk) + LeavesOf(b.nodes[j + 1..])
    requires |LeavesOf(b.nodes[..j])| <= lf && q == lf - |LeavesOf(b.nodes[..j])| && q < |Leaves(b.nodes[j].blk)|
    requires Leaves(b.nodes[j].blk)[q] == Leaves(b)[lf]
    ensures RemovedAt(b, Branch(b.nodes[j := Node(b.nodes[j].key, RemoveAt(b.nodes[j].blk, q, i))]), h, root, |Concat(Leaves(b)[..lf])| + i)
    decreases b, 0
  {
    var nodes := b.nodes;
    var c := nodes[j].blk;
    ChildNodeOk(b, h, root, j);
    assert b decreases to c by { assert b decreases to nodes[j]; }
    RemoveAtOk(c, h - 1, false, q, i);
    var pos := |Concat(Leaves(b)[..lf])| + i;
    assert pos == |Flat(nodes[..j])| + |Concat(Leaves(c)[..q])| + i by {
      assert Leaves(b) == LeavesOf(nodes);
      LeafPosition(nodes, lf, j, q);
    }
    PutAtOk(b, h, root, j, RemoveAt(c, q, i), |Concat(Leaves(c)[..q])| + i, pos);
  }

  lemma ChildNodeOk(b: Blk, h: nat, root: bool, j: nat)
    requires Tree(b, h, root) && b.Branch? && j < |b.nodes|
    ensures h > 0 && NodeOk(b.nodes[j], h - 1)
  {
    assert NodesOk(b.nodes, h - 1);
  }

  /** Putting a child back after removing its entry at position `p`. */
  lemma PutAtOk(b: Blk, h: nat, root: bool, j: nat, rc: Blk, p: nat, pos: nat)
    requires Tree(b, h, root) && b.Branch? && j < |b.nodes|
    requires h > 0 && NodeOk(b.nodes[j], h - 1)
    requires RemovedAt(b.nodes[j].blk, rc, h - 1, false, p) && pos == |Flat(b.nodes[..j])| + p
    ensures RemovedAt(b, Branch(b.nodes[j := Node(b.nodes[j].key, rc)]), h, root, pos)
  {
    var nodes := b.nodes;
    var r := Branch(nodes[j := Node(nodes[j].key, rc)]);
    PutAtTree(b, h, root, j, rc, p);
    WithoutCompose(Elems(b), Flat(nodes[..j]), Elems(nodes[j].blk), Flat(nodes[j + 1..]), Elems(r), p, pos);
  }

  /** Removing at position `p` of the middle part removes at the matching position of the whole. */
  lemma WithoutCompose(s: seq<Ent>, a: seq<Ent>, m: seq<Ent>, z: seq<Ent>, u: seq<Ent>, p: nat, pos: nat)
    requires s == a + m + z && p < |m| && u == a + Without(m, p) + z && pos == |a| + p
    ensures pos < |s| && u == Without(s, pos)
  {
    WithoutMiddle(a, m, z, p);
  }

  /** The block with the shrunk child is valid, holds its entries in its place and its last key is no larger. */
  lemma PutAtTree(b: Blk, h: nat, root: bool, j: nat, rc: Blk, p: nat)
    requires Tree(b, h, root) && b.Branch? && j < |b.nodes|
    requires h > 0 && NodeOk(b.nodes[j], h - 1)
    requires RemovedAt(b.nodes[j].blk, rc, h - 1, false, p)
    ensures var r := Branch(b.nodes[j := Node(b.nodes[j].key, rc)]);
      && Tree(r, h, root)
      && Elems(b) == Flat(b.nodes[..j]) + Elems(b.nodes[j].blk) + Flat(b.nodes[j + 1..])
      && Elems(r) == Flat(b.nodes[..j]) + Elems(rc) + Flat(b.nodes[j + 1..])
      && Len(b) > 0 && Len(r) > 0 && LastKey(r) <= LastKey(b)
  {
    var nodes := b.nodes;
    var c := nodes[j].blk;
    var nd := Node(nodes[j].key, rc);
    var r := Branch(nodes[j := nd]);
    assert NodesOk(nodes, h - 1);
    assert NodeOk(nd, h - 1);
    if j > 0 {
      assert Linked(nodes[j - 1], nodes[j]);
      AboveWithout(Elems(c), p, nodes[j - 1].key);
    }
    if j + 1 < |nodes| {
      assert Linked(nodes[j], nodes[j + 1]);
    }
    ReplaceNode(b, h, j, nd);
    assert SizeOk(r, root);
    assert NthKey(b, |nodes| - 1) == nodes[|nodes| - 1].key;
  }

  /** The leaves before leaf `lf` are those of the nodes before `j` and the first `q` leaves of node `j`. */
  lemma LeafPosition(nodes: seq<Node>, lf: nat, j: nat, q: nat)
    requires j < |nodes| && q < |Leaves(nodes[j].blk)|
    requires lf == |LeavesOf(nodes[..j])| + q
    requires LeavesOf(nodes) == LeavesOf(nodes[..j]) + Leaves(nodes[j].blk) + LeavesOf(nodes[j + 1..])
    ensures |Concat(LeavesOf(nodes)[..lf])| == |Flat(nodes[..j])| + |Concat(Leaves(nodes[j].blk)[..q])|
  {
    var a := LeavesOf(nodes[..j]);
    var m := Leaves(nodes[j].blk);
    assert LeavesOf(nodes)[..lf] == a + m[..q];
    ConcatAppend(a, m[..q]);
    ConcatLeavesOf(nodes[..j]);
  }

  lemma AboveWithout(s: seq<Ent>, p: nat, k: int)
    requires p < |s| && Above(s, k)
    ensures Above(Without(s, p), k)
  {
    var t := Without(s, p);
    assert forall x :: 0 <= x < |t| ==> t[x] == s[if x < p then x else x + 1];
  }

  lemma WithoutMiddle(a: seq<Ent>, m: seq<Ent>, c: seq<Ent>, p: nat)
    requires p < |m|
    ensures |a| + p < |a + m + c|
    ensures Without(a + m + c, |a| + p) == a + Without(m, p) + c
  {
    SliceLeft(a, m, c, p);
    SliceRight(a, m, c, p + 1);
  }
}
