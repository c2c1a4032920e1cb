/**
 * Insertion into the key skip list (`nghttp3_ksl_insert`,
 * lib/nghttp3_ksl.c:273-364).  The descent, which the source writes as a
 * loop that rewrites the blocks it walks through, is a recursion over the
 * block values: each level splits a full child before entering it and
 * rebuilds the block around the child it returns.
 */
module KslInsert {
  import opened KslTree
  import opened KslSpec
  import opened KslBlk

  // ---------------------------------------------------------------------
  // The operation.

  /**
   * One level of the descent (ksl.c:296-363).  In a leaf: refuse a key
   * already present (the second component is false), otherwise insert at
   * the search position.  In an internal block: a key above every node key
   * extends the last subtree; otherwise make room in the child the search
   * selects and insert there.
   */
  function InsertBlk(b: Blk, h: nat, root: bool, e: Ent): (r: (Blk, bool))
    requires Sized(b, h, root) && Len(b) < MAX_NBLK
    decreases h
  {
    var i := Search(b, e.key);
    match b
    case Leaf(ents) =>
      if i < |ents| && !(e.key < ents[i].key) then (b, false)
      else (InsertNode(b, i, e), true)
    case Branch(nodes) =>
      if i == |nodes| then (ExtendLast(b, h, root, e), true)
      else
        var (b1, j) := Descend(b, h, root, i, e.key);
        var (c, ok) := InsertBlk(b1.nodes[j].blk, h - 1, false, e);
        (Branch(b1.nodes[j := Node(b1.nodes[j].key, c)]), ok)
  }

  /**
   * The branch for a key above every node key (ksl.c:318-343): at every
   * level split a full last child, raise the last node key to the new key
   * and descend into the last child; append the entry to the last leaf.
   */
  function ExtendLast(b: Blk, h: nat, root: bool, e: Ent): (r: Blk)
    requires Sized(b, h, root) && Len(b) < MAX_NBLK
    decreases h, 1
  {
    match b
    case Leaf(ents) => InsertNode(b, |ents|, e)
    case Branch(nodes) =>
      RoomLast(b, h, root);
      ExtendInto(Room(b, h, root, |nodes| - 1), h, root, e)
  }

  /** Making room in the last child leaves a last child with room. */
  lemma RoomLast(b: Blk, h: nat, root: bool)
    requires Sized(b, h, root) && b.Branch? && Len(b) < MAX_NBLK
    ensures var r := Room(b, h, root, |b.nodes| - 1);
      Len(r.nodes[|r.nodes| - 1].blk) < MAX_NBLK
  {
    var i := |b.nodes| - 1;
    var r := Room(b, h, root, i);
    assert Len(b.nodes[i].blk) <= MAX_NBLK by {
      assert Sized(b.nodes[i].blk, h - 1, false);
    }
    if Len(b.nodes[i].blk) == MAX_NBLK {
      assert |r.nodes| - 1 == i + 1;
    } else {
      assert r == b;
    }
  }

  /** The internal-block step of `ExtendLast`, once the last child has room: the new key becomes its node key. */
  function ExtendInto(b1: Blk, h: nat, root: bool, e: Ent): (r: Blk)
    requires Sized(b1, h, root) && b1.Branch? && Len(b1.nodes[|b1.nodes| - 1].blk) < MAX_NBLK
    decreases h, 0
  {
    var n1 := |b1.nodes| - 1;
    assert Sized(b1.nodes[n1].blk, h - 1, false);
    Branch(b1.nodes[n1 := Node(e.key, ExtendLast(b1.nodes[n1].blk, h - 1, false, e))])
  }

  /**
   * The child selection after the search found node `i` (ksl.c:345-360): a
   * full child is split first, and when the key lies above the left
   * half's key the right half is entered, its node key raised to the new
   * key if it was below it.
   */
  function Descend(b: Blk, h: nat, root: bool, i: nat, key: int): (r: (Blk, nat))
    requires Sized(b, h, root) && b.Branch? && i < |b.nodes| && Len(b) < MAX_NBLK
    ensures r.0.Branch? && r.1 < |r.0.nodes| && Sized(r.0, h, root)
    ensures Len(r.0.nodes[r.1].blk) < MAX_NBLK
  {
    if Len(b.nodes[i].blk) == MAX_NBLK then
      var s := Room(b, h, root, i);
      if s.nodes[i].key < key then
        if s.nodes[i + 1].key < key then
          var s' := Branch(s.nodes[i + 1 := Node(key, s.nodes[i + 1].blk)]);
          assert Sized(s', h, root) by { RekeySized(s, h, root, i + 1, key); }
          (s', i + 1)
        else (s, i + 1)
      else (s, i)
    else (b, i)
  }

  /** `ksl_split_node` applied to a full child, and a child with room left alone. */
  function Room(b: Blk, h: nat, root: bool, i: nat): (r: Blk)
    requires Sized(b, h, root) && b.Branch? && i < |b.nodes| && Len(b) < MAX_NBLK
    ensures r.Branch? && Sized(r, h, root)
    ensures Len(b.nodes[i].blk) == MAX_NBLK ==>
      |r.nodes| == |b.nodes| + 1 && Len(r.nodes[i].blk) < MAX_NBLK && Len(r.nodes[i + 1].blk) < MAX_NBLK
    ensures Len(b.nodes[i].blk) < MAX_NBLK ==> r == b
  {
    assert Sized(b.nodes[i].blk, h - 1, false);
    if Len(b.nodes[i].blk) == MAX_NBLK then
      SplitNodeSized(b, h, root, i);
      SplitNodeHalves(b, i);
      SplitNode(b, i)
    else b
  }

  // ---------------------------------------------------------------------
  // Size facts for the descent.

  lemma SplitNodeHalves(b: Blk, i: nat)
    requires b.Branch? && i < |b.nodes| && 2 * MIN_NBLK <= Len(b.nodes[i].blk)
    ensures var r := SplitNode(b, i);
      && |r.nodes| == |b.nodes| + 1
      && r.nodes[i].blk == SplitBlk(b.nodes[i].blk).0
      && r.nodes[i + 1].blk == SplitBlk(b.nodes[i].blk).1
  {
    var halves := SplitBlk(b.nodes[i].blk);
    SpliceParts(b.nodes, i, i + 1, [KeyedBy(halves.0), KeyedBy(halves.1)]);
  }

  lemma RekeySized(b: Blk, h: nat, root: bool, j: nat, k: int)
    requires Sized(b, h, root) && b.Branch? && j < |b.nodes|
    ensures Sized(Branch(b.nodes[j := Node(k, b.nodes[j].blk)]), h, root)
  {
    var r := b.nodes[j := Node(k, b.nodes[j].blk)];
    forall m | 0 <= m < |r| ensures Sized(r[m].blk, h - 1, false) {
      assert r[m].blk == b.nodes[m].blk;
    }
  }

  // ---------------------------------------------------------------------
  // Order facts for the descent.

  /** Entries inserted between two bounds stay within them. */
  lemma InsAbove(s: seq<Ent>, e: Ent, lo: int)
    requires Above(s, lo) && lo < e.key
    ensures Above(Ins(s, e), lo)
  {
    InsAt(s, e);
  }

  lemma InsAtMost(s: seq<Ent>, e: Ent, hi: int)
    requires AtMost(s, hi) && e.key <= hi
    ensures AtMost(Ins(s, e), hi)
  {
    InsAt(s, e);
  }

  /**
   * Raising the key of node `j` to `k` keeps the block valid when `k` stays
   * below the entries of the next node.
   */
  lemma RekeyOk(s: Blk, h: nat, root: bool, j: nat, k: int)
    requires Tree(s, h, root) && s.Branch? && j < |s.nodes|
    requires s.nodes[j].key <= k
    requires j + 1 < |s.nodes| ==> Above(Elems(s.nodes[j + 1].blk), k)
    ensures var r := Branch(s.nodes[j := Node(k, s.nodes[j].blk)]);
      && Tree(r, h, root) && Elems(r) == Elems(s)
      && LastKey(r) == (if j + 1 == |s.nodes| then k else LastKey(s))
  {
    var nd := Node(k, s.nodes[j].blk);
    assert NodesOk(s.nodes, h - 1);
    assert NodeOk(s.nodes[j], h - 1);
    if j > 0 {
      assert Linked(s.nodes[j - 1], s.nodes[j]);
    }
    ReplaceNode(s, h, j, nd);
    FlatAt(s.nodes, j);
    var r := Branch(s.nodes[j := nd]);
    assert SizeOk(r, root);
  }

  /** What the descent needs to know of a split made to give a full child room. */
  ghost predicate SplitDone(b: Blk, s: Blk, h: nat, root: bool, i: nat)
    requires b.Branch? && i < |b.nodes|
  {
    && Tree(s, h, root) && s.Branch? && |s.nodes| == |b.nodes| + 1
    && Elems(s) == Elems(b) && LastKey(s) <= LastKey(b)
    && (i > 0 ==> s.nodes[i - 1] == b.nodes[i - 1])
    && s.nodes[i + 1].key <= b.nodes[i].key
    && (i + 2 < |s.nodes| ==> s.nodes[i + 2] == b.nodes[i + 1])
  }

  lemma RoomSplitOk(b: Blk, h: nat, root: bool, i: nat)
    requires Tree(b, h, root) && Sized(b, h, root) && b.Branch? && i < |b.nodes| && Len(b) < MAX_NBLK
    requires Len(b.nodes[i].blk) == MAX_NBLK
    ensures SplitDone(b, Room(b, h, root, i), h, root, i)
  {
    assert Room(b, h, root, i) == SplitNode(b, i);
    SplitNodeDone(b, h, root, i);
  }

  /** `split_node` on node `i` of a block with room for one more node. */
  lemma SplitNodeDone(b: Blk, h: nat, root: bool, i: nat)
    requires Tree(b, h, root) && b.Branch? && i < |b.nodes| && Len(b) < MAX_NBLK
    requires 2 * MIN_NBLK <= Len(b.nodes[i].blk)
    ensures SplitDone(b, SplitNode(b, i), h, root, i)
  {
    var nodes := b.nodes;
    var s := SplitNode(b, i);
    assert |s.nodes| == |nodes| + 1;
    assert Ordered(s, h) && Elems(s) == Elems(b)
      && s.nodes[..i] == nodes[..i] && s.nodes[i + 2..] == nodes[i + 1..]
      && s.nodes[i + 1].key <= nodes[i].key by {
      SplitNodeOk(b, h, i);
    }
    assert Tree(s, h, root) by {
      assert SizeOk(b, root);
    }
    assert LastKey(s) <= LastKey(b) by {
      assert NthKey(b, |nodes| - 1) == nodes[|nodes| - 1].key;
      assert NthKey(s, |s.nodes| - 1) == s.nodes[|s.nodes| - 1].key;
      if i + 1 < |nodes| {
        assert s.nodes[|s.nodes| - 1] == s.nodes[i + 2..][|nodes| - i - 2];
      } else {
        assert |s.nodes| - 1 == i + 1;
      }
    }
    if i > 0 {
      assert s.nodes[i - 1] == s.nodes[..i][i - 1];
    }
    if i + 2 < |s.nodes| {
      assert s.nodes[i + 2] == s.nodes[i + 2..][0];
    }
  }

  /**
   * The child selection leaves a valid block with the same entries and no
   * larger last key, and selects the node `j` the key falls under.
   */
  ghost predicate Descended(b: Blk, r: (Blk, nat), h: nat, root: bool, key: int) {
    && r.0.Branch? && r.1 < |r.0.nodes|
    && Tree(r.0, h, root) && Elems(r.0) == Elems(b)
    && (r.1 > 0 ==> r.0.nodes[r.1 - 1].key < key) && key <= r.0.nodes[r.1].key
    && Len(b) > 0 && LastKey(r.0) <= LastKey(b)
  }

  lemma DescendOk(b: Blk, h: nat, root: bool, i: nat, key: int)
    requires Tree(b, h, root) && Sized(b, h, root) && b.Branch? && Len(b) < MAX_NBLK
    requires i == Search(b, key) < |b.nodes|
    ensures Descended(b, Descend(b, h, root, i, key), h, root, key)
  {
    assert NthKey(b, i) == b.nodes[i].key;
    if i > 0 {
      assert NthKey(b, i - 1) == b.nodes[i - 1].key;
    }
    if Len(b.nodes[i].blk) == MAX_NBLK {
      RoomSplitOk(b, h, root, i);
      DescendSplitOk(b, Room(b, h, root, i), h, root, i, key);
    } else {
      assert Descend(b, h, root, i, key) == (b, i);
    }
  }

  lemma DescendSplitOk(b: Blk, s: Blk, h: nat, root: bool, i: nat, key: int)
    requires Tree(b, h, root) && Sized(b, h, root) && b.Branch? && Len(b) < MAX_NBLK
    requires i < |b.nodes| && Len(b.nodes[i].blk) == MAX_NBLK
    requires i > 0 ==> b.nodes[i - 1].key < key
    requires key <= b.nodes[i].key
    requires s == Room(b, h, root, i) && SplitDone(b, s, h, root, i)
    ensures Descended(b, Descend(b, h, root, i, key), h, root, key)
  {
    if s.nodes[i].key < key && s.nodes[i + 1].key < key {
      var s' := Branch(s.nodes[i + 1 := Node(key, s.nodes[i + 1].blk)]);
      assert Descend(b, h, root, i, key) == (s', i + 1);
      DescendRaiseOk(b, s, h, root, i, key);
    } else if s.nodes[i].key < key {
      assert Descend(b, h, root, i, key) == (s, i + 1);
    } else {
      assert Descend(b, h, root, i, key) == (s, i);
    }
  }

  /** The right half entered with its node key raised to the new key. */
  lemma DescendRaiseOk(b: Blk, s: Blk, h: nat, root: bool, i: nat, key: int)
    requires Tree(b, h, root) && b.Branch? && i < |b.nodes| && key <= b.nodes[i].key
    requires SplitDone(b, s, h, root, i)
    requires s.nodes[i].key < key && s.nodes[i + 1].key < key
    ensures Descended(b, (Branch(s.nodes[i + 1 := Node(key, s.nodes[i + 1].blk)]), i + 1), h, root, key)
  {
    if i + 2 < |s.nodes| {
      assert NodesOk(b.nodes, h - 1);
      assert Linked(b.nodes[i], b.nodes[i + 1]);
      AboveMono(Elems(b.nodes[i + 1].blk), b.nodes[i].key, key);
    } else {
      assert NthKey(b, |b.nodes| - 1) == b.nodes[i].key;
    }
    RekeyOk(s, h, root, i + 1, key);
  }

  // ---------------------------------------------------------------------
  // Correctness.

  /**
   * `r` is `b` with `e` appended after every entry: still valid, and
   * keyed by the new key.
   */
  ghost predicate Extended(b: Blk, r: Blk, h: nat, root: bool, e: Ent) {
    Tree(r, h, root) && Elems(r) == Elems(b) + [e] && Len(r) > 0 && LastKey(r) == e.key
  }

  /**
   * `r` is the outcome of inserting `e` into `b`: a valid block; success
   * exactly when the key was absent, with exactly the new entry added at
   * its place in key order; otherwise the same entries.  The last key
   * grows to the new key at most.
   */
  ghost predicate Inserted(b: Blk, r: (Blk, bool), h: nat, root: bool, e: Ent) {
    && Tree(r.0, h, root)
    && (r.1 <==> !HasKey(Elems(b), e.key))
    && Elems(r.0) == (if r.1 then Ins(Elems(b), e) else Elems(b))
    && Len(r.0) > 0
    && (LastKey(r.0) == e.key || (Len(b) > 0 && LastKey(r.0) <= LastKey(b)))
  }

  /** Extending the largest key appends the entry and keeps the block valid. */
  lemma {:induction false} ExtendLastOk(b: Blk, h: nat, root: bool, e: Ent)
    requires Tree(b, h, root) && Sized(b, h, root) && Len(b) < MAX_NBLK
    requires Len(b) > 0 ==> LastKey(b) < e.key
    ensures Extended(b, ExtendLast(b, h, root, e), h, root, e)
    decreases h, 1
  {
    match b
    case Leaf(ents) =>
      assert ExtendLast(b, h, root, e) == InsertNode(b, |ents|, e);
      ExtendLeafOk(b, h, root, e);
    case Branch(nodes) =>
      var last := |nodes| - 1;
      var b1 := Room(b, h, root, last);
      assert Tree(b1, h, root) && Elems(b1) == Elems(b) && LastKey(b1) <= LastKey(b) by {
        if Len(nodes[last].blk) == MAX_NBLK {
          RoomSplitOk(b, h, root, last);
        } else {
          assert b1 == b;
        }
      }
      RoomLast(b, h, root);
      assert ExtendLast(b, h, root, e) == ExtendInto(b1, h, root, e);
      ExtendIntoOk(b1, h, root, e);
      ExtendedSame(b, b1, ExtendInto(b1, h, root, e), h, root, e);
  }

  /** The leaf step of `ExtendLastOk`: the entry lands after the last one. */
  lemma ExtendLeafOk(b: Blk, h: nat, root: bool, e: Ent)
    requires Tree(b, h, root) && b.Leaf? && Len(b) < MAX_NBLK
    requires Len(b) > 0 ==> LastKey(b) < e.key
    ensures Extended(b, InsertNode(b, |b.ents|, e), h, root, e)
  {
    var t := b.ents + [e];
    assert InsertNode(b, |b.ents|, e) == Leaf(t) by {
      var r := InsertNode(b, |b.ents|, e);
      assert r.ents == t;
    }
    SnocSorted(b, h, root, e);
  }

  /** An entry above the last key keeps a valid leaf valid when appended. */
  lemma SnocSorted(b: Blk, h: nat, root: bool, e: Ent)
    requires Tree(b, h, root) && b.Leaf? && Len(b) < MAX_NBLK
    requires Len(b) > 0 ==> LastKey(b) < e.key
    ensures Extended(b, Leaf(b.ents + [e]), h, root, e)
  {
    var t := b.ents + [e];
    assert Sorted(t) by {
      TreeSorted(b, h, root);
      if Len(b) > 0 {
        assert Above([e], LastKey(b));
        SortedAppend(b.ents, [e], LastKey(b));
      }
    }
    assert LastKey(Leaf(t)) == t[|t| - 1].key;
  }

  /** The internal-block step of `ExtendLastOk`, once the last child has room. */
  lemma {:induction false} ExtendIntoOk(b1: Blk, h: nat, root: bool, e: Ent)
    requires Tree(b1, h, root) && Sized(b1, h, root) && b1.Branch?
    requires Len(b1.nodes[|b1.nodes| - 1].blk) < MAX_NBLK && LastKey(b1) < e.key
    ensures Extended(b1, ExtendInto(b1, h, root, e), h, root, e)
    decreases h, 0
  {
    var n1 := |b1.nodes| - 1;
    var c := b1.nodes[n1].blk;
    LastChildOk(b1, h, root, e.key);
    var c' := ExtendLast(c, h - 1, false, e);
    assert ExtendInto(b1, h, root, e) == Branch(b1.nodes[n1 := Node(e.key, c')]);
    ExtendLastOk(c, h - 1, false, e);
    AppendLastOk(b1, h, root, c', e);
  }

  lemma ExtendedSame(b: Blk, b1: Blk, r: Blk, h: nat, root: bool, e: Ent)
    requires Elems(b1) == Elems(b) && Extended(b1, r, h, root, e)
    ensures Extended(b, r, h, root, e)
  {
  }

  /** The last child of a block below the key: valid, sized and below the key too. */
  lemma LastChildOk(b1: Blk, h: nat, root: bool, key: int)
    requires Tree(b1, h, root) && Sized(b1, h, root) && b1.Branch? && LastKey(b1) < key
    ensures h > 0
    ensures var c := b1.nodes[|b1.nodes| - 1].blk;
      Tree(c, h - 1, false) && Sized(c, h - 1, false) && LastKey(c) < key
  {
    var n1 := |b1.nodes| - 1;
    assert NodesOk(b1.nodes, h - 1);
    assert NodeOk(b1.nodes[n1], h - 1);
    assert NthKey(b1, n1) == b1.nodes[n1].key;
  }

  /** Putting the extended last child back under the new key. */
  lemma AppendLastOk(b1: Blk, h: nat, root: bool, c': Blk, e: Ent)
    requires Tree(b1, h, root) && b1.Branch? && h > 0 && LastKey(b1) < e.key
    requires Extended(b1.nodes[|b1.nodes| - 1].blk, c', h - 1, false, e)
    ensures Extended(b1, Branch(b1.nodes[|b1.nodes| - 1 := Node(e.key, c')]), h, root, e)
  {
    var n1 := |b1.nodes| - 1;
    var c := b1.nodes[n1].blk;
    var nd := Node(e.key, c');
    assert NodesOk(b1.nodes, h - 1);
    if n1 > 0 {
      assert Linked(b1.nodes[n1 - 1], b1.nodes[n1]);
      NodeKeysAscend(b1.nodes, h - 1, n1 - 1, n1);
      assert NthKey(b1, n1) == b1.nodes[n1].key;
      AboveAppend(Elems(c), [e], b1.nodes[n1 - 1].key);
    }
    ReplaceNode(b1, h, n1, nd);
    var r := Branch(b1.nodes[n1 := nd]);
    assert b1.nodes[n1 + 1..] == [];
    assert Elems(r) == Elems(b1) + [e];
    assert SizeOk(r, root);
  }

  /**
   * `nghttp3_ksl_insert` below a block with room for one more node: see
   * `Inserted`.  (The first postcondition only says that the operation
   * applies to every valid block.)
   */
  lemma {:induction false} InsertBlkOk(b: Blk, h: nat, root: bool, e: Ent)
    requires Tree(b, h, root) && Len(b) < MAX_NBLK
    ensures Sized(b, h, root)
    ensures Inserted(b, InsertBlk(b, h, root, e), h, root, e)
    decreases h, 2
  {
    TreeSized(b, h, root);
    var i := Search(b, e.key);
    match b
    case Leaf(ents) =>
      InsertLeafOk(b, root, e);
    case Branch(nodes) =>
      if i == |nodes| {
        InsertLastOk(b, h, root, e);
      } else {
        InsertChildOk(b, h, root, i, e);
      }
  }

  /** A key above every node key: the insertion extends the last subtree. */
  lemma {:induction false} InsertLastOk(b: Blk, h: nat, root: bool, e: Ent)
    requires Tree(b, h, root) && Sized(b, h, root) && b.Branch? && Len(b) < MAX_NBLK
    requires Search(b, e.key) == |b.nodes|
    ensures Inserted(b, InsertBlk(b, h, root, e), h, root, e)
    decreases h, 1
  {
    SearchChild(b, h, e.key);
    assert NthKey(b, |b.nodes| - 1) < e.key;
    ExtendLastOk(b, h, root, e);
    InsLast(Elems(b), e);
    assert InsertBlk(b, h, root, e) == (ExtendLast(b, h, root, e), true);
  }

  /** The leaf step: refuse a present key, insert an absent one in order. */
  lemma InsertLeafOk(b: Blk, root: bool, e: Ent)
    requires Tree(b, 0, root) && Sized(b, 0, root) && b.Leaf? && Len(b) < MAX_NBLK
    ensures Inserted(b, InsertBlk(b, 0, root, e), 0, root, e)
  {
    var ents := b.ents;
    var i := Search(b, e.key);
    SearchLeaf(ents, e.key);
    TreeSorted(b, 0, root);
    HasKeyRank(ents, e.key);
    if i < |ents| && !(e.key < ents[i].key) {
      assert InsertBlk(b, 0, root, e) == (b, false);
    } else {
      assert InsertBlk(b, 0, root, e) == (InsertNode(b, i, e), true);
      InsertLeafNew(b, root, e);
    }
  }

  lemma InsertLeafNew(b: Blk, root: bool, e: Ent)
    requires Tree(b, 0, root) && b.Leaf? && Len(b) < MAX_NBLK
    requires !HasKey(b.ents, e.key)
    ensures Inserted(b, (InsertNode(b, Rank(b.ents, e.key), e), true), 0, root, e)
  {
    var ents := b.ents;
    var r := InsertNode(b, Rank(ents, e.key), e);
    var t := Ins(ents, e);
    assert r == Leaf(t) by {
      InsertNodeIns(b, e);
    }
    assert Inserted(b, (Leaf(t), true), 0, root, e) by {
      InsSorted(ents, e);
      InsLastEnt(ents, e);
      LeafInserted(b, t, root, e);
    }
  }

  /** A sorted leaf one entry longer, ending in the new entry or the old last one. */
  lemma LeafInserted(b: Blk, t: seq<Ent>, root: bool, e: Ent)
    requires Tree(b, 0, root) && b.Leaf? && Len(b) < MAX_NBLK && !HasKey(b.ents, e.key)
    requires t == Ins(b.ents, e) && Sorted(t) && |t| == Len(b) + 1
    requires t[|t| - 1] == e || (Len(b) > 0 && t[|t| - 1] == b.ents[Len(b) - 1])
    ensures Inserted(b, (Leaf(t), true), 0, root, e)
  {
    assert Tree(Leaf(t), 0, root);
    assert LastKey(Leaf(t)) == t[|t| - 1].key;
  }

  /** The last entry after an insertion is the new one or the old last one. */
  lemma InsLastEnt(s: seq<Ent>, e: Ent)
    ensures var t := Ins(s, e);
      t[|t| - 1] == e || (|s| > 0 && t[|t| - 1] == s[|s| - 1])
  {
    InsAt(s, e);
  }

  /** The internal-block step of `InsertBlkOk` when the search selects node `i`. */
  lemma {:induction false} InsertChildOk(b: Blk, h: nat, root: bool, i: nat, e: Ent)
    requires Tree(b, h, root) && Sized(b, h, root) && b.Branch? && Len(b) < MAX_NBLK
    requires i == Search(b, e.key) < |b.nodes|
    ensures Inserted(b, InsertBlk(b, h, root, e), h, root, e)
    decreases h, 1
  {
    var (b1, j) := Descend(b, h, root, i, e.key);
    DescendOk(b, h, root, i, e.key);
    var c := b1.nodes[j].blk;
    ChildOk(b1, h, root, j, e.key);
    InsertBlkOk(c, h - 1, false, e);
    var rc := InsertBlk(c, h - 1, false, e);
    PutChildOk(b1, h, root, j, rc, e);
    assert InsertBlk(b, h, root, e) == (Branch(b1.nodes[j := Node(b1.nodes[j].key, rc.0)]), rc.1);
  }

  /**
   * Putting the child back after inserting into it: the block stays valid
   * and its entries change as the child's did.
   */
  lemma PutChildOk(b1: Blk, h: nat, root: bool, j: nat, rc: (Blk, bool), e: Ent)
    requires Tree(b1, h, root) && b1.Branch? && j < |b1.nodes| && h > 0
    requires (j > 0 ==> b1.nodes[j - 1].key < e.key) && e.key <= b1.nodes[j].key
    requires Tree(b1.nodes[j].blk, h - 1, false) && Len(b1.nodes[j].blk) > 0
    requires Elems(b1) == Flat(b1.nodes[..j]) + Elems(b1.nodes[j].blk) + Flat(b1.nodes[j + 1..])
    requires Under(Flat(b1.nodes[..j]), e.key) && Above(Flat(b1.nodes[j + 1..]), e.key)
    requires Inserted(b1.nodes[j].blk, rc, h - 1, false, e)
    ensures var r := Branch(b1.nodes[j := Node(b1.nodes[j].key, rc.0)]);
      && Tree(r, h, root)
      && (rc.1 <==> !HasKey(Elems(b1), e.key))
      && Elems(r) == (if rc.1 then Ins(Elems(b1), e) else Elems(b1))
      && Len(r) > 0 && LastKey(r) == LastKey(b1)
  {
    var nodes := b1.nodes;
    var c := nodes[j].blk;
    var nd := Node(nodes[j].key, rc.0);
    PutChildTree(b1, h, root, j, rc, e);
    var pre := Flat(nodes[..j]);
    var post := Flat(nodes[j + 1..]);
    HasKeyMiddle(pre, Elems(c), post, e.key);
    if rc.1 {
      InsMiddle(pre, Elems(c), post, e);
    }
  }

  lemma PutChildTree(b1: Blk, h: nat, root: bool, j: nat, rc: (Blk, bool), e: Ent)
    requires Tree(b1, h, root) && b1.Branch? && j < |b1.nodes| && h > 0
    requires (j > 0 ==> b1.nodes[j - 1].key < e.key) && e.key <= b1.nodes[j].key
    requires Tree(b1.nodes[j].blk, h - 1, false) && Len(b1.nodes[j].blk) > 0
    requires Inserted(b1.nodes[j].blk, rc, h - 1, false, e)
    ensures var r := Branch(b1.nodes[j := Node(b1.nodes[j].key, rc.0)]);
      && Tree(r, h, root) && Len(r) > 0 && LastKey(r) == LastKey(b1)
      && Elems(r) == Flat(b1.nodes[..j]) + Elems(rc.0) + Flat(b1.nodes[j + 1..])
  {
    var nodes := b1.nodes;
    var c := nodes[j].blk;
    var nd := Node(nodes[j].key, rc.0);
    assert NodesOk(nodes, h - 1);
    assert NodeOk(nodes[j], h - 1);
    assert NodeOk(nd, h - 1);
    if j > 0 {
      assert Linked(nodes[j - 1], nodes[j]);
      if rc.1 { InsAbove(Elems(c), e, nodes[j - 1].key); }
    }
    if j + 1 < |nodes| {
      assert Linked(nodes[j], nodes[j + 1]);
    }
    ReplaceNode(b1, h, j, nd);
    var r := Branch(nodes[j := nd]);
    assert SizeOk(r, root);
    assert NthKey(b1, |nodes| - 1) == nodes[|nodes| - 1].key;
  }
}
