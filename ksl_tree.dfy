/**
 * The blocks of the key skip list (lib/nghttp3_ksl.c) as values, and the
 * invariant every operation keeps.
 *
 * A block is either a leaf, holding up to MAX_NBLK entries (a key and the
 * caller's data pointer), or an internal block holding up to MAX_NBLK
 * nodes (a key and a child block).  The key of an internal node is an
 * upper bound of every key stored below it: it equals the child's last
 * key when the node is created or rebalanced, and removal from below
 * leaves it unchanged.  The sequence of all entries, leaf after leaf, is
 * the content of the list.
 *
 * Keys are integers ordered by `<`, standing for any comparator that is a
 * strict total order (see KslCompar).
 */
module KslTree {
  import opened NghttpTypes

  /** NGHTTP3_KSL_MAX_NBLK = 2 * NGHTTP3_KSL_DEGR - 1, with DEGR = 16. */
  const MAX_NBLK: nat := 31
  /** NGHTTP3_KSL_MIN_NBLK = NGHTTP3_KSL_DEGR - 1. */
  const MIN_NBLK: nat := 15

  datatype Ent = Ent(key: int, data: Ptr)
  datatype Node = Node(key: int, blk: Blk)
  datatype Blk = Leaf(ents: seq<Ent>) | Branch(nodes: seq<Node>)

  /** `blk->n`. */
  function Len(b: Blk): nat {
    match b
    case Leaf(ents) => |ents|
    case Branch(nodes) => |nodes|
  }

  /** `nghttp3_ksl_nth_key(ksl, blk, i)`. */
  function NthKey(b: Blk, i: nat): int
    requires i < Len(b)
  {
    match b
    case Leaf(ents) => ents[i].key
    case Branch(nodes) => nodes[i].key
  }

  function LastKey(b: Blk): int
    requires Len(b) > 0
  {
    NthKey(b, Len(b) - 1)
  }

  /** All entries below `b`, leaf by leaf. */
  function Elems(b: Blk): seq<Ent> {
    match b
    case Leaf(ents) => ents
    case Branch(nodes) => Flat(nodes)
  }

  function Flat(nodes: seq<Node>): seq<Ent> {
    if |nodes| == 0 then []
    else
      var last := nodes[|nodes| - 1];
      assert nodes decreases to last;
      assert last decreases to last.blk;
      Flat(nodes[..|nodes| - 1]) + Elems(last.blk)
  }

  /** The list holds its entries in strictly ascending key order. */
  ghost predicate Sorted(s: seq<Ent>) {
    forall i, j :: 0 <= i < j < |s| ==> s[i].key < s[j].key
  }

  /** Every key of `s` is at most `k`. */
  ghost predicate AtMost(s: seq<Ent>, k: int) {
    forall i :: 0 <= i < |s| ==> s[i].key <= k
  }

  /** Every key of `s` is strictly above `k`. */
  ghost predicate Above(s: seq<Ent>, k: int) {
    forall i :: 0 <= i < |s| ==> k < s[i].key
  }

  /** Every key of `s` is strictly below `k`. */
  ghost predicate Under(s: seq<Ent>, k: int) {
    forall i :: 0 <= i < |s| ==> s[i].key < k
  }

  /**
   * The size part of the invariant alone: all leaves lie at depth `h` and
   * every block holds between MIN_NBLK and MAX_NBLK entries or nodes (the
   * head block: at most MAX_NBLK, and two nodes at least if internal).
   */
  ghost predicate Sized(b: Blk, h: nat, root: bool) {
    SizeOk(b, root)
    && match b
       case Leaf(_) => h == 0
       case Branch(nodes) =>
         h > 0 && forall i :: 0 <= i < |nodes| ==> Sized(nodes[i].blk, h - 1, false)
  }

  /**
   * The invariant of a block of height `h`: its entries or nodes are in
   * order, and it holds between MIN_NBLK and MAX_NBLK of them.  `root`
   * relaxes the lower bound for the head block, which may be a leaf with
   * fewer entries (even none) or an internal block with two nodes.
   */
  ghost predicate Tree(b: Blk, h: nat, root: bool)
    decreases b, 1
  {
    Ordered(b, h) && SizeOk(b, root)
  }

  predicate SizeOk(b: Blk, root: bool) {
    Len(b) <= MAX_NBLK
    && (if root then b.Branch? ==> 2 <= Len(b) else MIN_NBLK <= Len(b))
  }

  /** Order and height, whatever the block's size. */
  ghost predicate Ordered(b: Blk, h: nat)
    decreases b, 0
  {
    match b
    case Leaf(ents) => h == 0 && Sorted(ents)
    case Branch(nodes) => h > 0 && NodesOk(nodes, h - 1)
  }

  /** A node over a valid non-head child of height `h`, keyed by an upper bound of the child. */
  ghost predicate NodeOk(nd: Node, h: nat) {
    Tree(nd.blk, h, false) && Len(nd.blk) > 0 && LastKey(nd.blk) <= nd.key
  }

  /** Every entry below `c` is above the key of the node `a` before it. */
  ghost predicate Linked(a: Node, c: Node) {
    Above(Elems(c.blk), a.key)
  }

  ghost predicate NodesOk(nodes: seq<Node>, h: nat) {
    && (forall i :: 0 <= i < |nodes| ==> NodeOk(nodes[i], h))
    && (forall i :: 0 < i < |nodes| ==> Linked(nodes[i - 1], nodes[i]))
  }

  // ---------------------------------------------------------------------
  // Facts about the entry sequence.

  lemma {:induction false} FlatAppend(a: seq<Node>, c: seq<Node>)
    ensures Flat(a + c) == Flat(a) + Flat(c)
    decreases |c|
  {
    if |c| == 0 {
      assert a + c == a;
    } else {
      var c' := c[..|c| - 1];
      assert (a + c)[..|a + c| - 1] == a + c';
      assert (a + c)[|a + c| - 1] == c[|c| - 1];
      FlatAppend(a, c');
      assert c' + [c[|c| - 1]] == c;
    }
  }

  lemma FlatOne(nd: Node)
    ensures Flat([nd]) == Elems(nd.blk)
  {
    assert [nd][..0] == [];
  }

  /** The entries of nodes `pre`, node `nd` and nodes `post`, in order. */
  lemma FlatSplit(pre: seq<Node>, nd: Node, post: seq<Node>)
    ensures Flat(pre + [nd] + post) == Flat(pre) + Elems(nd.blk) + Flat(post)
  {
    FlatAppend(pre + [nd], post);
    FlatAppend(pre, [nd]);
    FlatOne(nd);
  }

  /** The entries of the node sequence around position `i`. */
  lemma FlatAt(nodes: seq<Node>, i: nat)
    requires i < |nodes|
    ensures Flat(nodes) == Flat(nodes[..i]) + Elems(nodes[i].blk) + Flat(nodes[i + 1..])
  {
    SplitAt(nodes, i);
    FlatSplit(nodes[..i], nodes[i], nodes[i + 1..]);
  }

  lemma SplitAt<T>(s: seq<T>, i: nat)
    requires i < |s|
    ensures s[..i] + [s[i]] + s[i + 1..] == s
  {
  }

  lemma SortedAppend(a: seq<Ent>, c: seq<Ent>, k: int)
    requires Sorted(a) && Sorted(c) && AtMost(a, k) && Above(c, k)
    ensures Sorted(a + c)
  {
  }

  lemma AboveAppend(a: seq<Ent>, c: seq<Ent>, k: int)
    requires Above(a, k) && Above(c, k)
    ensures Above(a + c, k)
  {
  }

  lemma AboveSplit(a: seq<Ent>, c: seq<Ent>, k: int)
    requires Above(a + c, k)
    ensures Above(a, k) && Above(c, k)
  {
    forall i | 0 <= i < |a| ensures k < a[i].key { assert a[i] == (a + c)[i]; }
    forall i | 0 <= i < |c| ensures k < c[i].key { assert c[i] == (a + c)[|a| + i]; }
  }

  lemma AtMostAppend(a: seq<Ent>, c: seq<Ent>, k: int)
    requires AtMost(a, k) && AtMost(c, k)
    ensures AtMost(a + c, k)
  {
  }

  /** The number of levels above the leaves, along the first child. */
  function Height(b: Blk): nat {
    match b
    case Leaf(_) => 0
    case Branch(nodes) =>
      if |nodes| == 0 then 1
      else
        assert nodes decreases to nodes[0];
        assert nodes[0] decreases to nodes[0].blk;
        1 + Height(nodes[0].blk)
  }

  /** Every leaf of a sized block lies at the same depth, which is its height. */
  lemma {:induction false} SizedHeight(b: Blk, h: nat, root: bool)
    requires Sized(b, h, root)
    ensures Height(b) == h
    decreases b
  {
    match b
    case Leaf(_) =>
    case Branch(nodes) =>
      assert nodes decreases to nodes[0];
      assert nodes[0] decreases to nodes[0].blk;
      SizedHeight(nodes[0].blk, h - 1, false);
  }

  // ---------------------------------------------------------------------
  // Consequences of the invariant.

  /** A well-formed block has the sizes the invariant demands at every level. */
  lemma {:induction false} TreeSized(b: Blk, h: nat, root: bool)
    requires Tree(b, h, root)
    ensures Sized(b, h, root)
    decreases b
  {
    match b
    case Leaf(_) =>
    case Branch(nodes) =>
      assert Ordered(b, h);
      assert NodesOk(nodes, h - 1);
      forall i | 0 <= i < |nodes|
        ensures Sized(nodes[i].blk, h - 1, false)
      {
        assert NodeOk(nodes[i], h - 1);
        TreeSized(nodes[i].blk, h - 1, false);
      }
  }

  /**
   * The entries below a valid block are sorted and bounded by its last
   * key, and a block that is not the head holds at least one entry.
   */
  lemma TreeSorted(b: Blk, h: nat, root: bool)
    requires Tree(b, h, root)
    ensures Sorted(Elems(b))
    ensures Len(b) > 0 ==> AtMost(Elems(b), LastKey(b)) && |Elems(b)| > 0
    ensures !root ==> Len(b) > 0
  {
    OrderedSorted(b, h);
  }

  lemma {:induction false} OrderedSorted(b: Blk, h: nat)
    requires Ordered(b, h)
    ensures Sorted(Elems(b))
    ensures Len(b) > 0 ==> AtMost(Elems(b), LastKey(b)) && |Elems(b)| > 0
    decreases b, 1
  {
    match b
    case Leaf(_) =>
    case Branch(nodes) =>
      NodesSorted(nodes, h - 1);
  }

  lemma {:induction false} NodesSorted(nodes: seq<Node>, h: nat)
    requires NodesOk(nodes, h)
    ensures Sorted(Flat(nodes))
    ensures |nodes| > 0 ==> AtMost(Flat(nodes), nodes[|nodes| - 1].key) && |Flat(nodes)| > 0
    decreases nodes, 0
  {
    if |nodes| > 0 {
      var n := |nodes|;
      var pre := nodes[..n - 1];
      var nd := nodes[n - 1];
      NodesOkSlice(nodes, h, 0, n - 1);
      assert nodes[0..n - 1] == pre;
      NodesSorted(pre, h);
      assert NodeOk(nd, h);
      assert Tree(nd.blk, h, false);
      assert nodes decreases to nd;
      assert nd decreases to nd.blk;
      OrderedSorted(nd.blk, h);
      if n > 1 {
        assert Linked(nodes[n - 2], nd);
        assert NodeOk(nodes[n - 2], h);
        SortedAppend(Flat(pre), Elems(nd.blk), pre[n - 2].key);
        assert pre[n - 2].key < Elems(nd.blk)[0].key <= nd.key;
        AtMostAppend(Flat(pre), Elems(nd.blk), nd.key);
      } else {
        assert Flat(pre) == [];
        assert Flat(nodes) == Elems(nd.blk);
      }
    }
  }

  /** The node keys of a valid internal block ascend strictly. */
  lemma NodeKeysAscend(nodes: seq<Node>, h: nat, i: nat, j: nat)
    requires NodesOk(nodes, h)
    requires i < j < |nodes|
    ensures nodes[i].key < nodes[j].key
    decreases j - i
  {
    assert NodeOk(nodes[j], h) && Linked(nodes[j - 1], nodes[j]);
    TreeSorted(nodes[j].blk, h, false);
    var e := Elems(nodes[j].blk);
    assert nodes[j - 1].key < e[0].key <= LastKey(nodes[j].blk);
    if i < j - 1 {
      NodeKeysAscend(nodes, h, i, j - 1);
    }
  }

  /** Every entry before node `i` is below any key above that node's predecessor. */
  lemma {:induction false} PrefixUnder(nodes: seq<Node>, h: nat, i: nat, k: int)
    requires NodesOk(nodes, h)
    requires 0 < i <= |nodes| && nodes[i - 1].key < k
    ensures Under(Flat(nodes[..i]), k)
  {
    var pre := nodes[..i];
    NodesOkSlice(nodes, h, 0, i);
    assert nodes[0..i] == pre;
    NodesSorted(pre, h);
  }

  /** Every entry after node `i` is above that node's key. */
  lemma {:induction false} SuffixAbove(nodes: seq<Node>, h: nat, i: nat)
    requires NodesOk(nodes, h)
    requires i < |nodes|
    ensures Above(Flat(nodes[i + 1..]), nodes[i].key)
    decreases |nodes| - i
  {
    var post := nodes[i + 1..];
    if |post| > 0 {
      assert post == [nodes[i + 1]] + nodes[i + 2..];
      FlatAppend([nodes[i + 1]], nodes[i + 2..]);
      FlatOne(nodes[i + 1]);
      assert Linked(nodes[i], nodes[i + 1]);
      SuffixAbove(nodes, h, i + 1);
      NodeKeysAscend(nodes, h, i, i + 1);
      assert Above(Flat(nodes[i + 2..]), nodes[i].key);
      AboveAppend(Elems(nodes[i + 1].blk), Flat(nodes[i + 2..]), nodes[i].key);
    }
  }

  /** A run of consecutive nodes of a valid block is valid. */
  lemma NodesOkSlice(nodes: seq<Node>, h: nat, lo: nat, hi: nat)
    requires NodesOk(nodes, h)
    requires lo <= hi <= |nodes|
    ensures NodesOk(nodes[lo..hi], h)
  {
    var s := nodes[lo..hi];
    forall i | 0 <= i < |s| ensures NodeOk(s[i], h) {
      assert s[i] == nodes[lo + i];
    }
    forall i | 0 < i < |s| ensures Linked(s[i - 1], s[i]) {
      assert s[i - 1] == nodes[lo + i - 1] && s[i] == nodes[lo + i];
    }
  }

  /** Two valid runs of nodes joined by a valid link. */
  lemma NodesOkAppend(a: seq<Node>, c: seq<Node>, h: nat)
    requires NodesOk(a, h) && NodesOk(c, h)
    requires |a| > 0 && |c| > 0 ==> Linked(a[|a| - 1], c[0])
    ensures NodesOk(a + c, h)
  {
    var s := a + c;
    forall i | 0 <= i < |s| ensures NodeOk(s[i], h) {
      if i < |a| { assert s[i] == a[i]; } else { assert s[i] == c[i - |a|]; }
    }
    forall i | 0 < i < |s| ensures Linked(s[i - 1], s[i]) {
      if i < |a| {
        assert s[i - 1] == a[i - 1] && s[i] == a[i];
      } else if i > |a| {
        assert s[i - 1] == c[i - 1 - |a|] && s[i] == c[i - |a|];
      }
    }
  }

  // ---------------------------------------------------------------------
  // Cutting and joining blocks (the memcpy/memmove of whole nodes).

  /** The first `k` entries or nodes of `b`. */
  function Take(b: Blk, k: nat): (r: Blk)
    requires k <= Len(b)
    ensures Len(r) == k && r.Leaf? == b.Leaf?
  {
    match b
    case Leaf(ents) => Leaf(ents[..k])
    case Branch(nodes) => Branch(nodes[..k])
  }

  /** `b` without its first `k` entries or nodes. */
  function Drop(b: Blk, k: nat): (r: Blk)
    requires k <= Len(b)
    ensures Len(r) == Len(b) - k && r.Leaf? == b.Leaf?
  {
    match b
    case Leaf(ents) => Leaf(ents[k..])
    case Branch(nodes) => Branch(nodes[k..])
  }

  /** The nodes of `c` appended to those of `b`, two blocks of one kind. */
  function Append(b: Blk, c: Blk): (r: Blk)
    requires b.Leaf? == c.Leaf?
    ensures Len(r) == Len(b) + Len(c) && r.Leaf? == b.Leaf?
  {
    match b
    case Leaf(ents) => Leaf(ents + c.ents)
    case Branch(nodes) => Branch(nodes + c.nodes)
  }

  lemma TakeDropAppend(b: Blk, k: nat)
    requires k <= Len(b)
    ensures Append(Take(b, k), Drop(b, k)) == b
  {
    match b
    case Leaf(ents) =>
      assert ents[..k] + ents[k..] == ents;
    case Branch(nodes) =>
      assert nodes[..k] + nodes[k..] == nodes;
  }

  lemma ElemsTakeDrop(b: Blk, k: nat)
    requires k <= Len(b)
    ensures Elems(Take(b, k)) + Elems(Drop(b, k)) == Elems(b)
  {
    match b
    case Leaf(ents) =>
      assert ents[..k] + ents[k..] == ents;
    case Branch(nodes) =>
      FlatAppend(nodes[..k], nodes[k..]);
      assert nodes[..k] + nodes[k..] == nodes;
  }

  lemma ElemsAppend(b: Blk, c: Blk)
    requires b.Leaf? == c.Leaf?
    ensures Elems(Append(b, c)) == Elems(b) + Elems(c)
  {
    if b.Branch? {
      FlatAppend(b.nodes, c.nodes);
    }
  }

  lemma OrderedTake(b: Blk, h: nat, k: nat)
    requires Ordered(b, h) && k <= Len(b)
    ensures Ordered(Take(b, k), h)
  {
    match b
    case Leaf(ents) =>
    case Branch(nodes) =>
      NodesOkSlice(nodes, h - 1, 0, k);
      assert nodes[0..k] == nodes[..k];
  }

  lemma OrderedDrop(b: Blk, h: nat, k: nat)
    requires Ordered(b, h) && k <= Len(b)
    ensures Ordered(Drop(b, k), h)
  {
    match b
    case Leaf(ents) =>
    case Branch(nodes) =>
      NodesOkSlice(nodes, h - 1, k, |nodes|);
      assert nodes[k..|nodes|] == nodes[k..];
  }

  /** Joining two ordered blocks of one height whose keys do not interleave. */
  lemma OrderedAppend(b: Blk, c: Blk, h: nat)
    requires Ordered(b, h) && Ordered(c, h)
    requires Len(b) > 0 && Above(Elems(c), LastKey(b))
    ensures b.Leaf? == c.Leaf?
    ensures Ordered(Append(b, c), h)
  {
    match b
    case Leaf(ents) =>
      OrderedSorted(b, h);
    case Branch(nodes) =>
      if |c.nodes| > 0 {
        FlatAppend([c.nodes[0]], c.nodes[1..]);
        FlatOne(c.nodes[0]);
        assert [c.nodes[0]] + c.nodes[1..] == c.nodes;
        assert Elems(c) == Elems(c.nodes[0].blk) + Flat(c.nodes[1..]);
        AboveSplit(Elems(c.nodes[0].blk), Flat(c.nodes[1..]), LastKey(b));
        assert Linked(nodes[|nodes| - 1], c.nodes[0]);
      }
      NodesOkAppend(nodes, c.nodes, h - 1);
  }

  /** After a cut at `k`, the kept part's last key is below all that was cut off. */
  lemma TakeDropApart(b: Blk, h: nat, k: nat)
    requires Ordered(b, h) && 0 < k <= Len(b)
    ensures Above(Elems(Drop(b, k)), LastKey(Take(b, k)))
  {
    match b
    case Leaf(ents) =>
    case Branch(nodes) =>
      if k < |nodes| {
        SuffixAbove(nodes, h - 1, k - 1);
        assert nodes[k - 1 + 1..] == nodes[k..];
      }
  }
}
