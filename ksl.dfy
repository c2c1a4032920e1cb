/**
 * `nghttp3_ksl` (lib/nghttp3_ksl.c): the list object.  Its fields are the
 * head block (`NULL` before the first insertion and after `clear`) and
 * the entry count `n`; `front` and `back`, the ends of the leaf chain,
 * are the first and last element of `LeafChain()`.  Every method states
 * the new contents in terms of the abstract sequence of KslSpec and the
 * iterator it returns as a position in that sequence.
 */
module KslList {
  import opened NghttpErr
  import opened KslTree
  import opened KslSpec
  import opened KslBlk
  import opened KslIt
  import opened KslInsert
  import opened KslRemove
  import opened KslUpdate
  import opened NghttpTypes

  class Ksl {
    var head: Option<Blk>
    var n: nat

    /** The entries in key order. */
    function Contents(): seq<Ent>
      reads this
    {
      if head.None? then [] else Elems(head.value)
    }

    /** `n` counts the entries, and a head, when present, is a valid head block. */
    ghost predicate Valid()
      reads this
    {
      && n == |Contents()|
      && (head.Some? ==> Tree(head.value, Height(head.value), true))
    }

    /**
     * The leaves from `front` through `next` to `back`, or `null_blk`
     * alone when there is no head; they hold the entries in order, and
     * only a sole leaf may be empty.
     */
    function LeafChain(): (c: seq<seq<Ent>>)
      reads this
      requires Valid()
      ensures |c| > 0 && Dense(c) && Concat(c) == Contents()
    {
      if head.Some? then
        TreeLeaves(head.value, Height(head.value), true);
        ConcatLeaves(head.value);
        Chain(head)
      else
        ConcatOne([]);
        Chain(head)
    }

    /** The invariant keeps the entries in strictly ascending key order. */
    lemma ValidSorted()
      requires Valid()
      ensures Sorted(Contents())
    {
      if head.Some? {
        TreeSorted(head.value, Height(head.value), true);
      }
    }

    /** `nghttp3_ksl_init`: no head block and no entries. */
    constructor ()
      ensures Valid() && head == None && n == 0 && Contents() == []
    {
      head := None;
      n := 0;
    }

    /** A head block is valid at the height the invariant fixes. */
    static lemma HeadHeight(b: Blk, h: nat)
      requires Tree(b, h, true)
      ensures Height(b) == h
    {
      TreeSized(b, h, true);
      SizedHeight(b, h, true);
    }

    /**
     * `nghttp3_ksl_insert` (ksl.c:273-364): the head is created if missing
     * and split if full; a key already present is refused with
     * ERR_INVALID_ARGUMENT and the end iterator, otherwise the entry is
     * added at its place in key order and the iterator designates it.
     */
    method Insert(key: int, data: Ptr) returns (rv: int, it: It)
      requires Valid()
      modifies this
      ensures Valid()
      ensures rv == 0 || rv == ERR_INVALID_ARGUMENT
      ensures rv == 0 <==> !HasKey(old(Contents()), key)
      ensures rv == 0 ==> Contents() == Ins(old(Contents()), Ent(key, data)) && n == old(n) + 1
      ensures rv == 0 ==> it == ItAt(LeafChain(), Rank(old(Contents()), key))
      ensures rv == 0 ==> Designates(LeafChain(), it, Ent(key, data))
      ensures rv != 0 ==> Contents() == old(Contents()) && n == old(n) && it == KslIt.End(LeafChain())
    {
      var s := Contents();
      var e := Ent(key, data);
      var b := if head.None? then Leaf([]) else head.value;
      var h := Height(b);
      assert Tree(b, h, true) && Elems(b) == s;
      if KslTree.Len(b) == MAX_NBLK {
        SplitHeadOk(b, h);
        b := SplitHead(b);
        h := h + 1;
      }
      InsertBlkOk(b, h, true, e);
      var r := InsertBlk(b, h, true, e);
      HeadHeight(r.0, h);
      head := Some(r.0);
      if r.1 {
        n := n + 1;
        rv := 0;
        var p := Rank(s, key);
        InsAt(s, e);
        ItAtGet(LeafChain(), p);
        it := ItAt(LeafChain(), p);
      } else {
        rv := ERR_INVALID_ARGUMENT;
        it := KslIt.End(LeafChain());
      }
    }

    /**
     * `nghttp3_ksl_remove` (ksl.c:554-636): without a head, or when the
     * key is absent, ERR_INVALID_ARGUMENT and nothing changes (the end
     * iterator is returned when there is a head).  Otherwise the entry is
     * gone and the iterator is at its former position: on the entry that
     * followed it, or at the end.
     */
    method Remove(key: int) returns (rv: int, it: It)
      requires Valid()
      modifies this
      ensures Valid()
      ensures rv == 0 || rv == ERR_INVALID_ARGUMENT
      ensures rv == 0 <==> HasKey(old(Contents()), key)
      ensures rv == 0 ==> Rank(old(Contents()), key) < |old(Contents())|
      ensures rv == 0 ==> Contents() == Del(old(Contents()), key) && n == old(n) - 1
      ensures rv == 0 ==> it == ItAt(LeafChain(), Rank(old(Contents()), key))
      ensures rv != 0 ==> Contents() == old(Contents()) && n == old(n)
      ensures rv != 0 && old(head).Some? ==> it == KslIt.End(LeafChain())
    {
      if head.None? {
        return ERR_INVALID_ARGUMENT, It(0, 0);
      }
      var s := Contents();
      var b := head.value;
      var h := Height(b);
      PremergeOk(b, h);
      var m := Premerge(b, h);
      RemoveBlkOk(m.0, m.1, true, key);
      var r := RemoveBlk(m.0, m.1, true, key);
      head := Some(r.0);
      if r.1 {
        n := n - 1;
        rv := 0;
        it := ItAt(LeafChain(), Rank(s, key));
      } else {
        rv := ERR_INVALID_ARGUMENT;
        it := KslIt.End(LeafChain());
      }
    }

    /**
     * `nghttp3_ksl_remove_hint` (ksl.c:528-552): when the hinted leaf holds
     * more than MIN_NBLK entries the hinted entry is removed in place,
     * otherwise this is `Remove(key)`.  A hint that designates `key`
     * removes exactly that key either way.
     */
    method RemoveHint(hint: It, key: int) returns (rv: int, it: It)
      requires Valid() && head.Some?
      requires hint.blk < |LeafChain()| && hint.i < |LeafChain()[hint.blk]|
      modifies this
      ensures Valid()
      ensures Position(old(LeafChain()), hint) < |old(Contents())|
      ensures MIN_NBLK < |old(LeafChain())[hint.blk]| ==>
        && rv == 0 && n == old(n) - 1
        && Contents() == Without(old(Contents()), Position(old(LeafChain()), hint))
        && it == ItAt(LeafChain(), Position(old(LeafChain()), hint))
      ensures |old(LeafChain())[hint.blk]| <= MIN_NBLK ==>
        && (rv == 0 <==> HasKey(old(Contents()), key))
        && (rv == 0 ==> Rank(old(Contents()), key) < |old(Contents())| && Contents() == Del(old(Contents()), key))
        && (rv == 0 ==> n == old(n) - 1 && it == ItAt(LeafChain(), Rank(old(Contents()), key)))
        && (rv != 0 ==> Contents() == old(Contents()) && n == old(n) && it == KslIt.End(LeafChain()))
      ensures Get(old(LeafChain()), hint).key == key ==>
        && rv == 0 && n == old(n) - 1
        && Rank(old(Contents()), key) < |old(Contents())|
        && Contents() == Del(old(Contents()), key)
        && it == ItAt(LeafChain(), Rank(old(Contents()), key))
    {
      var b := head.value;
      var c := Leaves(b);
      var p := Position(c, hint);
      HintOk(b, hint, key);
      if |c[hint.blk]| <= MIN_NBLK {
        rv, it := Remove(key);
        return;
      }
      var r := RemoveAt(b, hint.blk, hint.i);
      HeadHeight(r, Height(b));
      head := Some(r);
      n := n - 1;
      rv := 0;
      it := ItAt(LeafChain(), p);
    }

    /**
     * `nghttp3_ksl_lower_bound` and `nghttp3_ksl_lower_bound_search`
     * (ksl.c:638-689): the iterator at the first entry whose key is not
     * below `key`, or the end iterator when there is none.  Without a head
     * this is offset 0 of `null_blk`.
     */
    method LowerBound(key: int) returns (it: It)
      requires Valid()
      ensures it == ItAt(LeafChain(), Rank(Contents(), key))
      ensures Rank(Contents(), key) < |Contents()| ==>
        Designates(LeafChain(), it, Contents()[Rank(Contents(), key)])
      ensures Rank(Contents(), key) == |Contents()| ==> it == KslIt.End(LeafChain())
    {
      var c := LeafChain();
      ghost var s := Contents();
      var lf: nat, i: nat := 0, 0;
      if head.None? {
        assert c == [[]];
      } else {
        lf, i := Walk(c, head.value, key);
      }
      if i == |c[lf]| && lf + 1 < |c| {
        it := It(lf + 1, 0);
      } else {
        it := It(lf, i);
      }
      LowerBoundIt(c, s, key, lf, i, it);
    }

    /**
     * The descent of `nghttp3_ksl_lower_bound_search` (ksl.c:659-688) from
     * the head `b`, whose leaves are the chain `c`: it ends in leaf `lf` at
     * offset `i`, the lower-bound position of `key`.  The leaf reached is
     * kept as its index in the chain, counting the leaves passed over; a
     * search that runs off an internal block fast-forwards to its last
     * leaf, where every entry is below `key`.
     */
    static method Walk(c: seq<seq<Ent>>, b: Blk, key: int) returns (lf: nat, i: nat)
      requires Tree(b, Height(b), true) && c == Leaves(b)
      ensures lf < |c| && i <= |c[lf]|
      ensures Rank(Elems(b), key) == |Concat(c[..lf])| + i
    {
      var blk;
      ghost var pre: seq<seq<Ent>>, post: seq<seq<Ent>>, hb: nat, root: bool;
      blk, lf, i, pre, post, hb, root := SearchDown(c, b, key);
      if blk.Branch? {
        SearchChild(blk, hb, key);
        RankAll(Elems(blk), key);
        lf := LastLeaf(c, lf, blk, pre, post, hb, root);
        i := |c[lf]|;
      } else {
        SearchLeaf(blk.ents, key);
        WalkEnd(c, pre, blk, post, hb, root);
      }
    }

    /**
     * The descent loop of `nghttp3_ksl_lower_bound_search`: into the chosen
     * child while the search lands inside an internal block.  It stops at a
     * leaf, or at an internal block all of whose node keys are below `key`.
     */
    static method SearchDown(c: seq<seq<Ent>>, b: Blk, key: int)
      returns (blk: Blk, lf: nat, i: nat, ghost pre: seq<seq<Ent>>, ghost post: seq<seq<Ent>>, ghost hb: nat, ghost root: bool)
      requires Tree(b, Height(b), true) && c == Leaves(b)
      ensures Walking(c, pre, blk, post, hb, root) && lf == |pre|
      ensures Rank(Elems(b), key) == |Concat(pre)| + Rank(Elems(blk), key)
      ensures i == Search(blk, key) && (blk.Leaf? || i == KslTree.Len(blk))
    {
      blk := b;
      hb, root, pre, post := Height(blk), true, [], [];
      lf := 0;
      assert Walking(c, pre, blk, post, hb, root);
      i := Search(blk, key);
      while blk.Branch? && i < KslTree.Len(blk)
        invariant Walking(c, pre, blk, post, hb, root) && lf == |pre|
        invariant Rank(Elems(b), key) == |Concat(pre)| + Rank(Elems(blk), key)
        invariant i == Search(blk, key)
        decreases hb
      {
        var child := blk.nodes[i].blk;
        lf := lf + |LeavesOf(blk.nodes[..i])|;
        pre, post := DescendStep(c, pre, blk, post, hb, root, key, i);
        blk, hb, root := child, hb - 1, false;
        i := Search(blk, key);
      }
    }

    /**
     * The fast-forward of `nghttp3_ksl_lower_bound_search` (ksl.c:676-678):
     * from `blk`, whose leaves follow the `start` leaves `pre` in the chain `c`,
     * down the last node of every block to the last leaf below `blk`.
     */
    static method LastLeaf(c: seq<seq<Ent>>, start: nat, blk: Blk, ghost pre: seq<seq<Ent>>, ghost post: seq<seq<Ent>>,
                           ghost h: nat, ghost root: bool) returns (lf: nat)
      requires Walking(c, pre, blk, post, h, root) && start == |pre|
      ensures lf < |c| && |Concat(c[..lf])| + |c[lf]| == |Concat(pre)| + |Elems(blk)|
    {
      var b := blk;
      ghost var hb := h;
      ghost var r := root;
      ghost var p := pre;
      lf := start;
      while b.Branch?
        invariant Walking(c, p, b, post, hb, r) && lf == |p|
        invariant |Concat(p)| + |Elems(b)| == |Concat(pre)| + |Elems(blk)|
        decreases hb
      {
        var nodes := b.nodes;
        LastStep(c, p, b, post, hb, r);
        var skipped := LeavesOf(nodes[..|nodes| - 1]);
        p := p + skipped;
        lf, b, hb, r := lf + |skipped|, nodes[|nodes| - 1].blk, hb - 1, false;
      }
      WalkEnd(c, p, b, post, hb, r);
    }

    /**
     * `nghttp3_ksl_update_key` (ksl.c:691-721): the entry of `oldKey` gets
     * `newKey`, keeping its data and its place, and the list stays valid.
     */
    method UpdateKey(oldKey: int, newKey: int)
      requires Valid() && head.Some?
      requires HasKey(Contents(), oldKey)
      requires oldKey <= newKey && BelowNext(Contents(), oldKey, newKey)
      modifies this
      ensures Valid() && n == old(n)
      ensures Rank(old(Contents()), oldKey) < |old(Contents())|
      ensures Contents() == Rekeyed(old(Contents()), Rank(old(Contents()), oldKey), newKey)
    {
      var b := head.value;
      var h := Height(b);
      UpdateKeyOk(b, h, true, oldKey, newKey);
      var r := UpdateKeyBlk(b, h, true, oldKey, newKey);
      HeadHeight(r, h);
      head := Some(r);
    }

    /** `nghttp3_ksl_len`. */
    method Len() returns (r: nat)
      requires Valid()
      ensures r == |Contents()|
    {
      r := n;
    }

    /** `nghttp3_ksl_clear` (ksl.c:725-737): every block is released and the list is empty. */
    method Clear()
      requires Valid()
      modifies this
      ensures Valid() && head == None && n == 0 && Contents() == []
    {
      head := None;
      n := 0;
    }

    /** `nghttp3_ksl_begin` (ksl.c:772-782): offset 0 of `front`, or of `null_blk`. */
    method Begin() returns (it: It)
      requires Valid()
      ensures it == ItAt(LeafChain(), 0) && IsBegin(it)
      ensures |Contents()| > 0 ==>
        Designates(LeafChain(), it, Contents()[0])
    {
      var c := LeafChain();
      it := KslIt.Begin();
      ItAtBegin(c, 0);
      if |Contents()| > 0 {
        ItAtGet(c, 0);
      }
    }

    /** `nghttp3_ksl_end` (ksl.c:784-794): one past the last entry of `back`, or offset 0 of `null_blk`. */
    method End() returns (it: It)
      requires Valid()
      ensures it == ItAt(LeafChain(), |Contents()|) && it == KslIt.End(LeafChain())
    {
      var c := LeafChain();
      it := KslIt.End(c);
      ItAtEnd(c);
    }
  }

  // ---------------------------------------------------------------------
  // Facts for the methods.

  /**
   * What `remove_hint` relies on about a hint designating an entry of the
   * head `b`: its position is inside the contents, an entry with the key
   * sought is the one `remove` would find, and a leaf above MIN_NBLK loses
   * exactly that entry.
   */
  lemma HintOk(b: Blk, hint: It, key: int)
    requires Tree(b, Height(b), true) && hint.blk < |Leaves(b)| && hint.i < |Leaves(b)[hint.blk]|
    ensures Position(Leaves(b), hint) < |Elems(b)|
    ensures Get(Leaves(b), hint).key == key ==>
      && HasKey(Elems(b), key) && Rank(Elems(b), key) == Position(Leaves(b), hint)
      && Without(Elems(b), Position(Leaves(b), hint)) == Del(Elems(b), key)
    ensures MIN_NBLK < |Leaves(b)[hint.blk]| ==>
      RemovedAt(b, RemoveAt(b, hint.blk, hint.i), Height(b), true, Position(Leaves(b), hint))
  {
    var c := Leaves(b);
    var p := Position(c, hint);
    assert p < |Elems(b)| && Get(c, hint) == Elems(b)[p] by {
      TreeLeaves(b, Height(b), true);
      ConcatLeaves(b);
      ItAtPosition(c, hint);
    }
    if Get(c, hint).key == key {
      TreeSorted(b, Height(b), true);
      WithoutDel(Elems(b), p, key);
    }
    if MIN_NBLK < |c[hint.blk]| {
      RemoveAtOk(b, Height(b), true, hint.blk, hint.i);
    }
  }

  /** A hint designating `key` in a sorted sequence sits at its lower-bound position. */
  lemma WithoutDel(s: seq<Ent>, p: nat, key: int)
    requires Sorted(s) && p < |s| && s[p].key == key
    ensures HasKey(s, key) && Rank(s, key) == p && Without(s, p) == Del(s, key)
  {
    RankUnique(s, key, p);
  }

  /** Every key below `key`: the lower-bound position is the end. */
  lemma RankAll(s: seq<Ent>, key: int)
    requires Under(s, key)
    ensures Rank(s, key) == |s|
  {
    RankUnique(s, key, |s|);
  }

  /**
   * The iterator the descent ends with, at offset `i` of leaf `lf`, is the
   * iterator at the lower-bound position: on the first entry not below
   * `key`, or the end iterator when there is none.
   */
  lemma LowerBoundIt(c: seq<seq<Ent>>, s: seq<Ent>, key: int, lf: nat, i: nat, it: It)
    requires |c| > 0 && Dense(c) && Concat(c) == s
    requires lf < |c| && i <= |c[lf]| && Rank(s, key) == |Concat(c[..lf])| + i
    requires it == if i == |c[lf]| && lf + 1 < |c| then It(lf + 1, 0) else It(lf, i)
    ensures it == ItAt(c, Rank(s, key))
    ensures Rank(s, key) < |s| ==> Designates(c, it, s[Rank(s, key)])
    ensures Rank(s, key) == |s| ==> it == End(c)
  {
    ItAtLeaf(c, lf, i);
    if Rank(s, key) < |s| { ItAtGet(c, Rank(s, key)); } else { ItAtEnd(c); }
  }

  /** The leaves of node `j` within the leaves of its block, placed in the chain. */
  lemma ChainStep(pre: seq<seq<Ent>>, post: seq<seq<Ent>>, nodes: seq<Node>, j: nat)
    requires j < |nodes|
    ensures var a := LeavesOf(nodes[..j]);
      && pre + LeavesOf(nodes) + post == (pre + a) + Leaves(nodes[j].blk) + (LeavesOf(nodes[j + 1..]) + post)
      && |Concat(pre + a)| == |Concat(pre)| + |Flat(nodes[..j])|
  {
    var a := LeavesOf(nodes[..j]);
    var m := Leaves(nodes[j].blk);
    var z := LeavesOf(nodes[j + 1..]);
    assert LeavesOf(nodes) == a + m + z by { LeavesAt(nodes, j); }
    SeqRegroup(pre, a, m, z, post);
    assert |Concat(pre + a)| == |Concat(pre)| + |Flat(nodes[..j])| by {
      ConcatAppend(pre, a);
      ConcatLeavesOf(nodes[..j]);
    }
  }

  lemma SeqRegroup<T>(p: seq<T>, a: seq<T>, m: seq<T>, z: seq<T>, q: seq<T>)
    ensures p + (a + m + z) + q == (p + a) + m + (z + q)
  {
  }

  /** The state of the descent: a valid block `blk` whose leaves lie between `pre` and `post` in the chain. */
  ghost predicate Walking(c: seq<seq<Ent>>, pre: seq<seq<Ent>>, blk: Blk, post: seq<seq<Ent>>, h: nat, root: bool) {
    Tree(blk, h, root) && c == pre + Leaves(blk) + post
  }

  /** A leaf reached by the descent is the leaf at index `|pre|` of the chain. */
  lemma WalkEnd(c: seq<seq<Ent>>, pre: seq<seq<Ent>>, blk: Blk, post: seq<seq<Ent>>, h: nat, root: bool)
    requires Walking(c, pre, blk, post, h, root) && blk.Leaf?
    ensures |pre| < |c| && c[|pre|] == blk.ents && c[..|pre|] == pre
  {
    assert Leaves(blk) == [blk.ents];
    assert c == pre + [blk.ents] + post;
  }

  /** One step of the descent of `LowerBound`, into the child the search selects. */
  lemma DescendStep(c: seq<seq<Ent>>, pre: seq<seq<Ent>>, blk: Blk, post: seq<seq<Ent>>, h: nat, root: bool, key: int, i: nat)
    returns (pre': seq<seq<Ent>>, post': seq<seq<Ent>>)
    requires Walking(c, pre, blk, post, h, root) && blk.Branch? && i == Search(blk, key) && i < |blk.nodes|
    ensures pre' == pre + LeavesOf(blk.nodes[..i]) && post' == LeavesOf(blk.nodes[i + 1..]) + post
    ensures |pre'| == |pre| + |LeavesOf(blk.nodes[..i])|
    ensures h > 0 && Walking(c, pre', blk.nodes[i].blk, post', h - 1, false)
    ensures |Concat(pre)| + Rank(Elems(blk), key) == |Concat(pre')| + Rank(Elems(blk.nodes[i].blk), key)
  {
    pre', post' := pre + LeavesOf(blk.nodes[..i]), LeavesOf(blk.nodes[i + 1..]) + post;
    WalkChild(c, pre, blk, post, h, root, i);
    SearchRank(blk, h, key);
  }

  /** Walking into child `j` of a valid block continues the walk over the same chain. */
  lemma WalkChild(c: seq<seq<Ent>>, pre: seq<seq<Ent>>, blk: Blk, post: seq<seq<Ent>>, h: nat, root: bool, j: nat)
    requires Walking(c, pre, blk, post, h, root) && blk.Branch? && j < |blk.nodes|
    ensures var a := LeavesOf(blk.nodes[..j]);
      && h > 0 && Walking(c, pre + a, blk.nodes[j].blk, LeavesOf(blk.nodes[j + 1..]) + post, h - 1, false)
      && |Concat(pre + a)| == |Concat(pre)| + |Flat(blk.nodes[..j])|
  {
    assert Ordered(blk, h);
    assert NodesOk(blk.nodes, h - 1);
    assert NodeOk(blk.nodes[j], h - 1);
    ChainStep(pre, post, blk.nodes, j);
  }

  /** The lower-bound position in a block is found inside the child the search selects. */
  lemma SearchRank(blk: Blk, h: nat, key: int)
    requires Ordered(blk, h) && blk.Branch? && Search(blk, key) < |blk.nodes|
    ensures var i := Search(blk, key);
      Rank(Elems(blk), key) == |Flat(blk.nodes[..i])| + Rank(Elems(blk.nodes[i].blk), key)
  {
    var i := Search(blk, key);
    var nodes := blk.nodes;
    SearchChild(blk, h, key);
    RankMiddle(Flat(nodes[..i]), Elems(nodes[i].blk), Flat(nodes[i + 1..]), key);
  }

  /** One step of the fast-forward of `LowerBound`, into the last child. */
  lemma LastStep(c: seq<seq<Ent>>, pre: seq<seq<Ent>>, blk: Blk, post: seq<seq<Ent>>, h: nat, root: bool)
    requires Walking(c, pre, blk, post, h, root) && blk.Branch?
    ensures |blk.nodes| > 0
    ensures var j := |blk.nodes| - 1;
      var a := LeavesOf(blk.nodes[..j]);
      var child := blk.nodes[j].blk;
      && h > 0 && Walking(c, pre + a, child, post, h - 1, false)
      && |Concat(pre)| + |Elems(blk)| == |Concat(pre + a)| + |Elems(child)|
  {
    var nodes := blk.nodes;
    assert Ordered(blk, h);
    assert NodesOk(nodes, h - 1);
    var j := |nodes| - 1;
    WalkChild(c, pre, blk, post, h, root, j);
    assert nodes[j + 1..] == [];
    assert Elems(blk) == Flat(nodes[..j]) + Elems(nodes[j].blk);
  }
}
