/**
 * The leaf chain of the key skip list (lib/nghttp3_ksl.c) and its
 * iterators.  The leaves, linked from `front` through `next` to `back`,
 * are the sequence `Leaves(head)`; an empty list is represented by the
 * single empty `null_blk`.  An iterator is a leaf index in that chain and
 * an offset within the leaf, the value counterpart of `it->blk` and
 * `it->i`.
 */
module KslIt {
  import opened KslTree
  import opened KslSpec
  import opened NghttpTypes

  /** `nghttp3_ksl_it`: leaf `blk` of the chain, entry `i` of that leaf. */
  datatype It = It(blk: nat, i: nat)

  /** The leaves below `b`, left to right. */
  function Leaves(b: Blk): seq<seq<Ent>> {
    match b
    case Leaf(ents) => [ents]
    case Branch(nodes) => LeavesOf(nodes)
  }

  function LeavesOf(nodes: seq<Node>): seq<seq<Ent>> {
    if |nodes| == 0 then []
    else
      var last := nodes[|nodes| - 1];
      assert nodes decreases to last;
      assert last decreases to last.blk;
      LeavesOf(nodes[..|nodes| - 1]) + Leaves(last.blk)
  }

  /** The chain an iterator walks: the leaves of the head, or `null_blk` alone. */
  function Chain(head: Option<Blk>): (c: seq<seq<Ent>>)
    requires head.Some? ==> |Leaves(head.value)| > 0
    ensures |c| > 0
  {
    match head
    case None => [[]]
    case Some(b) => Leaves(b)
  }

  /** The entries of a chain, leaf after leaf. */
  function Concat(c: seq<seq<Ent>>): seq<Ent> {
    if |c| == 0 then [] else c[0] + Concat(c[1..])
  }

  /** Every leaf of the chain holds an entry, unless the chain is a single leaf. */
  ghost predicate Dense(c: seq<seq<Ent>>) {
    |c| == 1 || forall k :: 0 <= k < |c| ==> |c[k]| > 0
  }

  // ---------------------------------------------------------------------
  // Iterators over a chain.

  /**
   * The iterator at position `p` of the chain's entries: the leaf holding
   * that entry, or for `p` past the last entry the end of the last leaf.
   * A position at the end of a leaf that has a successor is expressed at
   * the start of the successor.
   */
  function ItAt(c: seq<seq<Ent>>, p: nat): (it: It)
    requires |c| > 0
    ensures it.blk < |c|
    decreases |c|
  {
    if |c| == 1 || p < |c[0]| then It(0, p)
    else Shift(ItAt(c[1..], p - |c[0]|), 1)
  }

  function Shift(it: It, k: nat): It {
    It(it.blk + k, it.i)
  }

  /** `nghttp3_ksl_begin`: the first entry of `front`. */
  function Begin(): It {
    It(0, 0)
  }

  /** `nghttp3_ksl_end`: one past the last entry of `back`. */
  function End(c: seq<seq<Ent>>): (it: It)
    requires |c| > 0
    ensures it.blk == |c| - 1 && it.i == |c[|c| - 1]|
  {
    It(|c| - 1, |c[|c| - 1]|)
  }

  /** `nghttp3_ksl_it_begin`: the iterator is at offset 0 of a leaf without `prev`. */
  function IsBegin(it: It): bool {
    it.i == 0 && it.blk == 0
  }

  /**
   * `nghttp3_ksl_it_prev`: one entry back, moving to the last entry of the
   * previous leaf from offset 0.
   */
  function Prev(c: seq<seq<Ent>>, it: It): (r: It)
    requires !IsBegin(it) && it.blk < |c|
    requires it.i == 0 ==> |c[it.blk - 1]| > 0
    ensures r.blk < |c|
  {
    if it.i == 0 then It(it.blk - 1, |c[it.blk - 1]| - 1) else It(it.blk, it.i - 1)
  }

  /** The entry an iterator designates. */
  function Get(c: seq<seq<Ent>>, it: It): Ent
    requires it.blk < |c| && it.i < |c[it.blk]|
  {
    c[it.blk][it.i]
  }

  /** The iterator designates an entry of the chain, and that entry is `e`. */
  ghost predicate Designates(c: seq<seq<Ent>>, it: It, e: Ent) {
    it.blk < |c| && it.i < |c[it.blk]| && Get(c, it) == e
  }

  // ---------------------------------------------------------------------
  // Facts about chains.

  lemma {:induction false} ConcatAppend(a: seq<seq<Ent>>, c: seq<seq<Ent>>)
    ensures Concat(a + c) == Concat(a) + Concat(c)
    decreases |a|
  {
    if |a| == 0 {
      assert a + c == c;
    } else {
      assert (a + c)[1..] == a[1..] + c;
      ConcatAppend(a[1..], c);
    }
  }

  lemma ConcatOne(s: seq<Ent>)
    ensures Concat([s]) == s
  {
    assert [s][1..] == [];
  }

  /** The leaves hold exactly the entries of the block. */
  lemma {:induction false} ConcatLeaves(b: Blk)
    ensures Concat(Leaves(b)) == Elems(b)
    decreases b, 1
  {
    match b
    case Leaf(ents) => ConcatOne(ents);
    case Branch(nodes) => ConcatLeavesOf(nodes);
  }

  lemma {:induction false} ConcatLeavesOf(nodes: seq<Node>)
    ensures Concat(LeavesOf(nodes)) == Flat(nodes)
    decreases nodes, 0
  {
    if |nodes| > 0 {
      var last := nodes[|nodes| - 1];
      assert nodes decreases to last;
      assert last decreases to last.blk;
      ConcatLeavesOf(nodes[..|nodes| - 1]);
      ConcatLeaves(last.blk);
      ConcatAppend(LeavesOf(nodes[..|nodes| - 1]), Leaves(last.blk));
    }
  }

  lemma {:induction false} LeavesOfAppend(a: seq<Node>, c: seq<Node>)
    ensures LeavesOf(a + c) == LeavesOf(a) + LeavesOf(c)
    decreases |c|
  {
    if |c| == 0 {
      assert a + c == a;
    } else {
      var c' := c[..|c| - 1];
      assert (a + c)[..|a + c| - 1] == a + c';
      assert (a + c)[|a + c| - 1] == c[|c| - 1];
      LeavesOfAppend(a, c');
    }
  }

  /** The leaves of a node sequence around node `i`. */
  lemma LeavesAt(nodes: seq<Node>, i: nat)
    requires i < |nodes|
    ensures LeavesOf(nodes) == LeavesOf(nodes[..i]) + Leaves(nodes[i].blk) + LeavesOf(nodes[i + 1..])
  {
    SplitAt(nodes, i);
    LeavesOfAppend(nodes[..i] + [nodes[i]], nodes[i + 1..]);
    LeavesOfAppend(nodes[..i], [nodes[i]]);
    assert [nodes[i]][..0] == [];
  }

  /** Few-entry leaves occur only as the sole leaf: below a valid head, every leaf holds an entry. */
  lemma {:induction false} TreeLeaves(b: Blk, h: nat, root: bool)
    requires Tree(b, h, root)
    ensures |Leaves(b)| > 0
    ensures (!root || h > 0) ==> forall k :: 0 <= k < |Leaves(b)| ==> |Leaves(b)[k]| > 0
    ensures Dense(Leaves(b))
    decreases b, 1
  {
    match b
    case Leaf(ents) =>
      if !root { assert MIN_NBLK <= |ents|; }
    case Branch(nodes) =>
      assert Ordered(b, h);
      assert NodesOk(nodes, h - 1);
      NodesLeaves(nodes, h - 1);
  }

  lemma {:induction false} NodesLeaves(nodes: seq<Node>, h: nat)
    requires NodesOk(nodes, h) && |nodes| > 0
    ensures |LeavesOf(nodes)| > 0
    ensures forall k :: 0 <= k < |LeavesOf(nodes)| ==> |LeavesOf(nodes)[k]| > 0
    decreases nodes, 0
  {
    var n := |nodes|;
    var last := nodes[n - 1];
    assert nodes decreases to last;
    assert last decreases to last.blk;
    assert NodeOk(last, h);
    TreeLeaves(last.blk, h, false);
    if n > 1 {
      NodesOkSlice(nodes, h, 0, n - 1);
      assert nodes[0..n - 1] == nodes[..n - 1];
      NodesLeaves(nodes[..n - 1], h);
    } else {
      assert LeavesOf(nodes[..0]) == [];
    }
  }

  // ---------------------------------------------------------------------
  // Iterators and positions.

  /** Skipping whole leaves: a position past the leaves `a` is found in the rest of the chain. */
  lemma {:induction false} ItAtSkip(a: seq<seq<Ent>>, rest: seq<seq<Ent>>, q: nat)
    requires |rest| > 0
    ensures ItAt(a + rest, |Concat(a)| + q) == Shift(ItAt(rest, q), |a|)
    decreases |a|
  {
    if |a| > 0 {
      var c := a + rest;
      assert c[0] == a[0];
      assert c[1..] == a[1..] + rest;
      assert |Concat(a)| == |a[0]| + |Concat(a[1..])|;
      ItAtSkip(a[1..], rest, q);
    } else {
      assert a + rest == rest;
    }
  }

  /** The position past every entry is `End`. */
  lemma {:induction false} ItAtEnd(c: seq<seq<Ent>>)
    requires |c| > 0
    ensures ItAt(c, |Concat(c)|) == End(c)
    decreases |c|
  {
    if |c| > 1 {
      assert |Concat(c)| == |c[0]| + |Concat(c[1..])|;
      ItAtEnd(c[1..]);
    } else {
      assert c[1..] == [];
    }
  }

  /** An iterator at a position before the end designates the entry at that position. */
  lemma {:induction false} ItAtGet(c: seq<seq<Ent>>, p: nat)
    requires |c| > 0 && p < |Concat(c)|
    ensures ItAt(c, p).i < |c[ItAt(c, p).blk]|
    ensures Get(c, ItAt(c, p)) == Concat(c)[p]
    decreases |c|
  {
    assert Concat(c) == c[0] + Concat(c[1..]);
    if |c| == 1 {
      assert c[1..] == [];
    } else if |c[0]| <= p {
      ItAtGet(c[1..], p - |c[0]|);
    }
  }

  /** In a dense chain, position `p` is the first position exactly when its iterator is `Begin`. */
  lemma ItAtBegin(c: seq<seq<Ent>>, p: nat)
    requires |c| > 0 && Dense(c)
    ensures IsBegin(ItAt(c, p)) <==> p == 0
  {
    if |c| > 1 {
      assert |c[0]| > 0;
    }
  }

  /** In a dense chain, `Prev` moves an iterator exactly one position back. */
  lemma PrevItAt(c: seq<seq<Ent>>, p: nat)
    requires |c| > 0 && Dense(c) && 0 < p <= |Concat(c)|
    ensures !IsBegin(ItAt(c, p))
    ensures Prev(c, ItAt(c, p)) == ItAt(c, p - 1)
  {
    ItAtBegin(c, p);
    PrevStep(c, p);
  }

  lemma {:induction false} PrevStep(c: seq<seq<Ent>>, p: nat)
    requires |c| > 0 && Dense(c)
    requires 0 < p <= |Concat(c)|
    requires !IsBegin(ItAt(c, p))
    ensures Prev(c, ItAt(c, p)) == ItAt(c, p - 1)
    decreases |c|
  {
    if |c| > 1 && |c[0]| <= p {
      var t := c[1..];
      var q := p - |c[0]|;
      assert ItAt(c, p) == Shift(ItAt(t, q), 1);
      if q == 0 {
        assert ItAt(t, 0) == It(0, 0) by { assert |t[0]| > 0; }
        assert ItAt(c, p - 1) == It(0, |c[0]| - 1);
      } else {
        assert Dense(t) && q <= |Concat(t)| by {
          assert Concat(c) == c[0] + Concat(t);
          forall k | 0 <= k < |t| ensures |t[k]| > 0 { assert t[k] == c[k + 1]; }
        }
        var it := ItAt(t, q);
        assert !IsBegin(it) by { ItAtBegin(t, q); }
        assert Prev(t, it) == ItAt(t, q - 1) by { PrevStep(t, q); }
        assert ItAt(c, p - 1) == Shift(ItAt(t, q - 1), 1);
        if it.i == 0 {
          assert c[it.blk] == t[it.blk - 1];
        }
      }
    }
  }

  /** The position of the entry an iterator designates: the entries of the leaves before it, plus its offset. */
  function Position(c: seq<seq<Ent>>, it: It): nat
    requires it.blk <= |c|
  {
    |Concat(c[..it.blk])| + it.i
  }

  /**
   * `ItAt` and `Position` are inverse: an iterator that designates an
   * entry of a dense chain is the iterator at its own position, and
   * designates the entry at that position.
   */
  lemma ItAtPosition(c: seq<seq<Ent>>, it: It)
    requires Dense(c) && it.blk < |c| && it.i < |c[it.blk]|
    ensures ItAt(c, Position(c, it)) == it
    ensures Position(c, it) < |Concat(c)|
    ensures Get(c, it) == Concat(c)[Position(c, it)]
  {
    ItAtLeaf(c, it.blk, it.i);
    ConcatAt(c, it.blk, it.i);
  }

  /** Entry `i` of leaf `lf` sits after the entries of the leaves before it. */
  lemma ConcatAt(c: seq<seq<Ent>>, lf: nat, i: nat)
    requires lf < |c| && i < |c[lf]|
    ensures |Concat(c[..lf])| + i < |Concat(c)|
    ensures Concat(c)[|Concat(c[..lf])| + i] == c[lf][i]
  {
    ConcatAppend(c[..lf], c[lf..]);
    assert c[..lf] + c[lf..] == c;
    assert Concat(c[lf..]) == c[lf] + Concat(c[lf + 1..]);
  }

  /**
   * The iterator at offset `i` of leaf `lf`, where `i` may be the end of
   * the leaf: that leaf and offset, except that the end of a leaf with a
   * successor is the start of the successor.
   */
  lemma ItAtLeaf(c: seq<seq<Ent>>, lf: nat, i: nat)
    requires Dense(c) && lf < |c| && i <= |c[lf]|
    ensures ItAt(c, |Concat(c[..lf])| + i) == if i == |c[lf]| && lf + 1 < |c| then It(lf + 1, 0) else It(lf, i)
  {
    var rest := c[lf..];
    assert c[..lf] + rest == c;
    ItAtSkip(c[..lf], rest, i);
    assert rest[0] == c[lf];
    if i == |c[lf]| && lf + 1 < |c| {
      var t := rest[1..];
      assert t[0] == c[lf + 1];
      assert ItAt(t, 0) == It(0, 0);
    }
  }
}
