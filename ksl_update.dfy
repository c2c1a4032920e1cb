/**
 * Replacing a key in place (`nghttp3_ksl_update_key`,
 * lib/nghttp3_ksl.c:691-721).  The descent follows the old key; in a leaf
 * the entry's key is replaced, and on the way every node key that equals
 * the old key or is below the new one becomes the new key.
 */
module KslUpdate {
  import opened KslTree
  import opened KslSpec
  import opened KslBlk

  /**
   * One level of the descent.  The source asserts that the search stays
   * within the block and that the leaf entry found holds the old key;
   * both follow from the old key being present, which is required here.
   */
  function UpdateKeyBlk(b: Blk, h: nat, root: bool, oldKey: int, newKey: int): (r: Blk)
    requires Tree(b, h, root) && HasKey(Elems(b), oldKey)
    decreases b
  {
    var i := Search(b, oldKey);
    UpdateStep(b, h, root, oldKey);
    match b
    case Leaf(ents) => Leaf(ents[i := Ent(newKey, ents[i].data)])
    case Branch(nodes) =>
      var nd := nodes[i];
      var k := if nd.key == oldKey || nd.key < newKey then newKey else nd.key;
      Branch(nodes[i := Node(k, UpdateKeyBlk(nd.blk, h - 1, false, oldKey, newKey))])
  }

  /** The entry sequence with the key at position `p` replaced and its data kept. */
  function Rekeyed(s: seq<Ent>, p: nat, k: int): (t: seq<Ent>)
    requires p < |s|
    ensures |t| == |s| && t[p].key == k && t[p].data == s[p].data
    ensures forall j :: 0 <= j < |s| && j != p ==> t[j] == s[j]
  {
    s[p := Ent(k, s[p].data)]
  }

  /** Every key above `oldKey` is also above `newKey`: `newKey` lies below the successor of `oldKey`. */
  ghost predicate BelowNext(s: seq<Ent>, oldKey: int, newKey: int) {
    forall j :: 0 <= j < |s| && oldKey < s[j].key ==> newKey < s[j].key
  }

  function Max(a: int, b: int): int {
    if a < b then b else a
  }

  /**
   * What the update achieves on a block: it stays valid, the entry of the
   * old key now carries the new key, and its last key grows at most to the
   * new key.
   */
  ghost predicate Updated(b: Blk, r: Blk, h: nat, root: bool, oldKey: int, newKey: int) {
    && Tree(r, h, root)
    && Rank(Elems(b), oldKey) < |Elems(b)|
    && Elems(r) == Rekeyed(Elems(b), Rank(Elems(b), oldKey), newKey)
    && Len(b) > 0 && Len(r) > 0 && LastKey(r) <= Max(LastKey(b), newKey)
  }

  /** The search for a present key stays within the block and leads to the block holding it. */
  lemma UpdateStep(b: Blk, h: nat, root: bool, oldKey: int)
    requires Tree(b, h, root) && HasKey(Elems(b), oldKey)
    ensures Search(b, oldKey) < Len(b)
    ensures b.Leaf? ==> Rank(b.ents, oldKey) == Search(b, oldKey) && b.ents[Search(b, oldKey)].key == oldKey
    ensures b.Branch? ==>
      var i := Search(b, oldKey);
      && h > 0 && NodeOk(b.nodes[i], h - 1)
      && Elems(b) == Flat(b.nodes[..i]) + Elems(b.nodes[i].blk) + Flat(b.nodes[i + 1..])
      && Under(Flat(b.nodes[..i]), oldKey) && Above(Flat(b.nodes[i + 1..]), oldKey)
      && (i > 0 ==> b.nodes[i - 1].key < oldKey) && oldKey <= b.nodes[i].key
      && HasKey(Elems(b.nodes[i].blk), oldKey)
  {
    TreeSorted(b, h, root);
    var s := Elems(b);
    var w :| 0 <= w < |s| && s[w].key == oldKey;
    var i := Search(b, oldKey);
    match b
    case Leaf(ents) =>
      SearchLeaf(ents, oldKey);
      HasKeyRank(ents, oldKey);
    case Branch(nodes) =>
      SearchChild(b, h, oldKey);
      assert i < |nodes|;
      assert NthKey(b, i) == nodes[i].key;
      if i > 0 { assert NthKey(b, i - 1) == nodes[i - 1].key; }
      ChildOk(b, h, root, i, oldKey);
      assert NodesOk(nodes, h - 1);
      assert NodeOk(nodes[i], h - 1);
      HasKeyMiddle(Flat(nodes[..i]), Elems(nodes[i].blk), Flat(nodes[i + 1..]), oldKey);
  }

  /**
   * `nghttp3_ksl_update_key` with a new key not below the old one and
   * below the old key's successor keeps the list valid and changes the
   * key of that one entry.
   */
  lemma {:induction false} UpdateKeyOk(b: Blk, h: nat, root: bool, oldKey: int, newKey: int)
    requires Tree(b, h, root) && HasKey(Elems(b), oldKey)
    requires oldKey <= newKey && BelowNext(Elems(b), oldKey, newKey)
    ensures Updated(b, UpdateKeyBlk(b, h, root, oldKey, newKey), h, root, oldKey, newKey)
    decreases b, 1
  {
    if b.Leaf? {
      UpdateLeafOk(b, root, oldKey, newKey);
    } else {
      UpdateBranchOk(b, h, root, oldKey, newKey);
    }
  }

  lemma UpdateLeafOk(b: Blk, root: bool, oldKey: int, newKey: int)
    requires Tree(b, 0, root) && b.Leaf? && HasKey(Elems(b), oldKey)
    requires oldKey <= newKey && BelowNext(Elems(b), oldKey, newKey)
    ensures Updated(b, UpdateKeyBlk(b, 0, root, oldKey, newKey), 0, root, oldKey, newKey)
  {
    UpdateStep(b, 0, root, oldKey);
    var ents := b.ents;
    var i := Search(b, oldKey);
    var t := Rekeyed(ents, i, newKey);
    assert UpdateKeyBlk(b, 0, root, oldKey, newKey) == Leaf(t);
    assert Sorted(t) by {
      assert Elems(b) == ents;
      TreeSorted(b, 0, root);
      RekeyedSorted(ents, i, oldKey, newKey);
    }
    LeafUpdated(b, t, root, i, oldKey, newKey);
  }

  /** A key raised below its successor keeps a sorted sequence sorted. */
  lemma RekeyedSorted(s: seq<Ent>, p: nat, oldKey: int, newKey: int)
    requires Sorted(s) && p < |s| && s[p].key == oldKey
    requires oldKey <= newKey && BelowNext(s, oldKey, newKey)
    ensures Sorted(Rekeyed(s, p, newKey))
  {
    var t := Rekeyed(s, p, newKey);
    forall x, y | 0 <= x < y < |t| ensures t[x].key < t[y].key {
      if x == p {
        assert oldKey < s[y].key;
      } else if y == p {
        assert s[x].key < oldKey;
      } else {
        assert s[x].key < s[y].key;
      }
    }
  }

  lemma LeafUpdated(b: Blk, t: seq<Ent>, root: bool, i: nat, oldKey: int, newKey: int)
    requires Tree(b, 0, root) && b.Leaf? && i < |b.ents| && Rank(b.ents, oldKey) == i
    requires t == Rekeyed(b.ents, i, newKey) && Sorted(t) && oldKey <= newKey
    ensures Updated(b, Leaf(t), 0, root, oldKey, newKey)
  {
    assert Elems(b) == b.ents;
    assert Tree(Leaf(t), 0, root) by { assert SizeOk(Leaf(t), root); }
    assert LastKey(Leaf(t)) == t[|t| - 1].key;
  }

  lemma {:induction false} UpdateBranchOk(b: Blk, h: nat, root: bool, oldKey: int, newKey: int)
    requires Tree(b, h, root) && b.Branch? && HasKey(Elems(b), oldKey)
    requires oldKey <= newKey && BelowNext(Elems(b), oldKey, newKey)
    ensures Updated(b, UpdateKeyBlk(b, h, root, oldKey, newKey), h, root, oldKey, newKey)
    decreases b, 0
  {
    UpdateStep(b, h, root, oldKey);
    var nodes := b.nodes;
    var i := Search(b, oldKey);
    var c := nodes[i].blk;
    var pre := Flat(nodes[..i]);
    var post := Flat(nodes[i + 1..]);
    BelowNextMiddle(pre, Elems(c), post, oldKey, newKey);
    UpdateKeyOk(c, h - 1, false, oldKey, newKey);
    var rc := UpdateKeyBlk(c, h - 1, false, oldKey, newKey);
    var k := if nodes[i].key == oldKey || nodes[i].key < newKey then newKey else nodes[i].key;
    assert UpdateKeyBlk(b, h, root, oldKey, newKey) == Branch(nodes[i := Node(k, rc)]);
    assert NthKey(b, i) == nodes[i].key;
    if i > 0 { assert NthKey(b, i - 1) == nodes[i - 1].key; }
    PutKeyOk(b, h, root, i, k, rc, oldKey, newKey);
  }

  /** Putting the child back under its key, raised to the new key where that key is larger. */
  lemma PutKeyOk(b: Blk, h: nat, root: bool, i: nat, k: int, rc: Blk, oldKey: int, newKey: int)
    requires Tree(b, h, root) && b.Branch? && i < |b.nodes| && h > 0
    requires oldKey <= newKey && BelowNext(Elems(b), oldKey, newKey)
    requires (i > 0 ==> b.nodes[i - 1].key < oldKey) && oldKey <= b.nodes[i].key
    requires k == if b.nodes[i].key == oldKey || b.nodes[i].key < newKey then newKey else b.nodes[i].key
    requires Elems(b) == Flat(b.nodes[..i]) + Elems(b.nodes[i].blk) + Flat(b.nodes[i + 1..])
    requires Under(Flat(b.nodes[..i]), oldKey) && Above(Flat(b.nodes[i + 1..]), oldKey)
    requires Updated(b.nodes[i].blk, rc, h - 1, false, oldKey, newKey)
    ensures Updated(b, Branch(b.nodes[i := Node(k, rc)]), h, root, oldKey, newKey)
  {
    var nodes := b.nodes;
    PutKeyTree(b, h, root, i, k, rc, oldKey, newKey);
    MiddleRekeyed(Elems(b), Flat(nodes[..i]), Elems(nodes[i].blk), Flat(nodes[i + 1..]), Elems(rc), oldKey, newKey);
  }

  /** The block with the raised node is valid, holds the updated child's entries in its place and its last key is bounded. */
  lemma PutKeyTree(b: Blk, h: nat, root: bool, i: nat, k: int, rc: Blk, oldKey: int, newKey: int)
    requires Tree(b, h, root) && b.Branch? && i < |b.nodes| && h > 0
    requires oldKey <= newKey && BelowNext(Elems(b), oldKey, newKey)
    requires (i > 0 ==> b.nodes[i - 1].key < oldKey) && oldKey <= b.nodes[i].key
    requires k == if b.nodes[i].key == oldKey || b.nodes[i].key < newKey then newKey else b.nodes[i].key
    requires Elems(b) == Flat(b.nodes[..i]) + Elems(b.nodes[i].blk) + Flat(b.nodes[i + 1..])
    requires Under(Flat(b.nodes[..i]), oldKey) && Above(Flat(b.nodes[i + 1..]), oldKey)
    requires Updated(b.nodes[i].blk, rc, h - 1, false, oldKey, newKey)
    ensures var r := Branch(b.nodes[i := Node(k, rc)]);
      && Tree(r, h, root) && Elems(r) == Flat(b.nodes[..i]) + Elems(rc) + Flat(b.nodes[i + 1..])
      && Len(r) > 0 && LastKey(r) <= Max(LastKey(b), newKey)
  {
    var nodes := b.nodes;
    var nd := Node(k, rc);
    var r := Branch(nodes[i := nd]);
    RaisedNodeOk(b, h, i, k, rc, oldKey, newKey);
    ReplaceNode(b, h, i, nd);
    assert SizeOk(r, root);
    if i + 1 == |nodes| {
      assert Len(b) - 1 == i && NthKey(b, i) == nodes[i].key;
    }
  }

  /** Rekeying the entry of the middle part rekeys the entry of the whole. */
  lemma MiddleRekeyed(s: seq<Ent>, a: seq<Ent>, m: seq<Ent>, z: seq<Ent>, t: seq<Ent>, oldKey: int, newKey: int)
    requires s == a + m + z && Under(a, oldKey) && Above(z, oldKey)
    requires Rank(m, oldKey) < |m| && t == Rekeyed(m, Rank(m, oldKey), newKey)
    ensures Rank(s, oldKey) < |s| && a + t + z == Rekeyed(s, Rank(s, oldKey), newKey)
  {
    RankMiddle(a, m, z, oldKey);
    RekeyedMiddle(a, m, z, Rank(m, oldKey), newKey);
  }

  /** The node over the updated child fits where the old node was. */
  lemma RaisedNodeOk(b: Blk, h: nat, i: nat, k: int, rc: Blk, oldKey: int, newKey: int)
    requires Ordered(b, h) && b.Branch? && i < |b.nodes| && h > 0
    requires oldKey <= newKey && BelowNext(Elems(b), oldKey, newKey)
    requires (i > 0 ==> b.nodes[i - 1].key < oldKey) && oldKey <= b.nodes[i].key
    requires k == if b.nodes[i].key == oldKey || b.nodes[i].key < newKey then newKey else b.nodes[i].key
    requires Elems(b) == Flat(b.nodes[..i]) + Elems(b.nodes[i].blk) + Flat(b.nodes[i + 1..])
    requires Above(Flat(b.nodes[i + 1..]), oldKey)
    requires Updated(b.nodes[i].blk, rc, h - 1, false, oldKey, newKey)
    ensures NodeOk(Node(k, rc), h - 1)
    ensures i > 0 ==> Linked(b.nodes[i - 1], Node(k, rc))
    ensures i + 1 < |b.nodes| ==> Linked(Node(k, rc), b.nodes[i + 1])
  {
    var nodes := b.nodes;
    var c := nodes[i].blk;
    var post := Flat(nodes[i + 1..]);
    assert NodesOk(nodes, h - 1);
    assert NodeOk(nodes[i], h - 1);
    var p := Rank(Elems(c), oldKey);
    var t := Elems(rc);
    if i > 0 {
      assert Linked(nodes[i - 1], nodes[i]);
      forall x | 0 <= x < |t| ensures nodes[i - 1].key < t[x].key {
        if x != p { assert t[x] == Elems(c)[x]; }
      }
    }
    if i + 1 < |nodes| {
      BelowNextMiddle(Flat(nodes[..i]), Elems(c), post, oldKey, newKey);
      assert Linked(nodes[i], nodes[i + 1]);
      FlatFirst(nodes[i + 1..]);
      assert nodes[i + 1..][0] == nodes[i + 1];
      var d := Elems(nodes[i + 1].blk);
      assert forall x :: 0 <= x < |d| ==> d[x] == post[x];
    }
  }

  lemma BelowNextMiddle(a: seq<Ent>, m: seq<Ent>, c: seq<Ent>, oldKey: int, newKey: int)
    requires BelowNext(a + m + c, oldKey, newKey) && Above(c, oldKey)
    ensures BelowNext(m, oldKey, newKey) && Above(c, newKey)
  {
    var s := a + m + c;
    forall j | 0 <= j < |m| && oldKey < m[j].key ensures newKey < m[j].key {
      assert s[|a| + j] == m[j];
    }
    forall j | 0 <= j < |c| ensures newKey < c[j].key {
      assert s[|a| + |m| + j] == c[j];
    }
  }

  lemma RekeyedMiddle(a: seq<Ent>, m: seq<Ent>, c: seq<Ent>, p: nat, k: int)
    requires p < |m|
    ensures a + Rekeyed(m, p, k) + c == Rekeyed(a + m + c, |a| + p, k)
  {
    var l := a + Rekeyed(m, p, k) + c;
    var r := Rekeyed(a + m + c, |a| + p, k);
    forall j | 0 <= j < |l| ensures l[j] == r[j] {
      if j < |a| {
      } else if j < |a| + |m| {
        assert l[j] == Rekeyed(m, p, k)[j - |a|];
      }
    }
  }
}
