/**
 * The abstract meaning of the key skip list: a sequence of entries in
 * strictly ascending key order, with insertion, deletion and the
 * lower-bound position defined on that sequence alone.
 */
module KslSpec {
  import opened KslTree

  /** The number of entries whose key is below `k`: in a sorted sequence, the lower-bound position of `k`. */
  function Rank(s: seq<Ent>, k: int): (r: nat)
    ensures r <= |s|
    ensures forall j :: 0 <= j < r ==> s[j].key < k
    ensures r < |s| ==> k <= s[r].key
  {
    if |s| == 0 || k <= s[0].key then 0 else 1 + Rank(s[1..], k)
  }

  ghost predicate HasKey(s: seq<Ent>, k: int) {
    exists j :: 0 <= j < |s| && s[j].key == k
  }

  /** `s` with `e` placed at the lower-bound position of its key. */
  function Ins(s: seq<Ent>, e: Ent): seq<Ent> {
    var p := Rank(s, e.key);
    s[..p] + [e] + s[p..]
  }

  /** `s` without the entry at the lower-bound position of `k`. */
  function Del(s: seq<Ent>, k: int): seq<Ent>
    requires Rank(s, k) < |s|
  {
    var p := Rank(s, k);
    s[..p] + s[p + 1..]
  }

  /** The lower-bound position is the only index with its two defining properties. */
  lemma RankUnique(s: seq<Ent>, k: int, r: nat)
    requires r <= |s|
    requires forall j :: 0 <= j < r ==> s[j].key < k
    requires r < |s| ==> k <= s[r].key
    ensures Rank(s, k) == r
  {
  }

  /** In a sorted sequence, a key is present exactly when it sits at its lower-bound position. */
  lemma HasKeyRank(s: seq<Ent>, k: int)
    requires Sorted(s)
    ensures HasKey(s, k) <==> Rank(s, k) < |s| && s[Rank(s, k)].key == k
  {
    if HasKey(s, k) {
      var j :| 0 <= j < |s| && s[j].key == k;
    }
  }

  /** The entries of `Ins(s, e)`, position by position. */
  lemma InsAt(s: seq<Ent>, e: Ent)
    ensures |Ins(s, e)| == |s| + 1
    ensures forall i :: 0 <= i < |s| + 1 ==>
      Ins(s, e)[i] == (if i < Rank(s, e.key) then s[i] else if i == Rank(s, e.key) then e else s[i - 1])
  {
  }

  /** The entries of `Del(s, k)`, position by position. */
  lemma DelAt(s: seq<Ent>, k: int)
    requires Rank(s, k) < |s|
    ensures |Del(s, k)| == |s| - 1
    ensures forall i :: 0 <= i < |s| - 1 ==>
      Del(s, k)[i] == (if i < Rank(s, k) then s[i] else s[i + 1])
  {
  }

  /** Inserting an absent key keeps the sequence sorted and adds exactly that entry. */
  lemma InsSorted(s: seq<Ent>, e: Ent)
    requires Sorted(s) && !HasKey(s, e.key)
    ensures Sorted(Ins(s, e))
    ensures |Ins(s, e)| == |s| + 1
    ensures Ins(s, e)[Rank(s, e.key)] == e
    ensures forall k :: HasKey(Ins(s, e), k) <==> HasKey(s, k) || k == e.key
  {
    var p := Rank(s, e.key);
    InsAt(s, e);
    HasKeyRank(s, e.key);
    assert p < |s| ==> e.key < s[p].key;
    forall k ensures HasKey(Ins(s, e), k) <==> HasKey(s, k) || k == e.key {
      InsHasKey(s, e, k);
    }
  }

  lemma InsHasKey(s: seq<Ent>, e: Ent, k: int)
    ensures HasKey(Ins(s, e), k) <==> HasKey(s, k) || k == e.key
  {
    var p := Rank(s, e.key);
    var t := Ins(s, e);
    InsAt(s, e);
    if HasKey(t, k) {
      var j :| 0 <= j < |t| && t[j].key == k;
    }
    if HasKey(s, k) {
      var j :| 0 <= j < |s| && s[j].key == k;
      assert t[if j < p then j else j + 1] == s[j];
    }
    if k == e.key {
      assert t[p] == e;
    }
  }

  /** Deleting a present key keeps the sequence sorted and removes exactly that key. */
  lemma DelSorted(s: seq<Ent>, k: int)
    requires Sorted(s) && HasKey(s, k)
    ensures Rank(s, k) < |s|
    ensures Sorted(Del(s, k))
    ensures |Del(s, k)| == |s| - 1
    ensures forall x :: HasKey(Del(s, k), x) <==> HasKey(s, x) && x != k
  {
    HasKeyRank(s, k);
    DelAt(s, k);
    DelOrder(s, k);
    forall x ensures HasKey(Del(s, k), x) <==> HasKey(s, x) && x != k {
      DelHasKey(s, k, x);
    }
  }

  lemma DelOrder(s: seq<Ent>, k: int)
    requires Sorted(s) && Rank(s, k) < |s|
    ensures Sorted(Del(s, k))
  {
    WithoutSorted(s, Rank(s, k));
  }

  /** Dropping one entry from a sorted sequence leaves it sorted. */
  lemma WithoutSorted(s: seq<Ent>, p: nat)
    requires Sorted(s) && p < |s|
    ensures Sorted(s[..p] + s[p + 1..])
  {
    var t := s[..p] + s[p + 1..];
    assert |t| == |s| - 1;
    forall i, j | 0 <= i < j < |t| ensures t[i].key < t[j].key {
      var i': nat := if i < p then i else i + 1;
      var j': nat := if j < p then j else j + 1;
      assert t[i] == s[i'];
      assert t[j] == s[j'];
      assert i' < j';
    }
  }

  lemma DelHasKey(s: seq<Ent>, k: int, x: int)
    requires Sorted(s) && Rank(s, k) < |s| && s[Rank(s, k)].key == k
    ensures HasKey(Del(s, k), x) <==> HasKey(s, x) && x != k
  {
    if HasKey(Del(s, k), x) {
      SortedUnique(s, Rank(s, k));
      DelKeptKey(s, k, x);
    }
    if HasKey(s, x) && x != k {
      DelOtherKey(s, k, x);
    }
  }

  lemma DelKeptKey(s: seq<Ent>, k: int, x: int)
    requires Rank(s, k) < |s| && s[Rank(s, k)].key == k
    requires forall i :: 0 <= i < |s| && i != Rank(s, k) ==> s[i].key != k
    requires HasKey(Del(s, k), x)
    ensures HasKey(s, x) && x != k
  {
    var p := Rank(s, k);
    var t := Del(s, k);
    DelAt(s, k);
    var j :| 0 <= j < |t| && t[j].key == x;
    var j': nat := if j < p then j else j + 1;
    assert t[j] == s[j'];
  }

  /** In a sorted sequence no two positions hold the same key. */
  lemma SortedUnique(s: seq<Ent>, p: nat)
    requires Sorted(s) && p < |s|
    ensures forall i :: 0 <= i < |s| && i != p ==> s[i].key != s[p].key
  {
    forall i | 0 <= i < |s| && i != p ensures s[i].key != s[p].key {
      if i < p { assert s[i].key < s[p].key; } else { assert s[p].key < s[i].key; }
    }
  }

  lemma DelOtherKey(s: seq<Ent>, k: int, x: int)
    requires Rank(s, k) < |s| && s[Rank(s, k)].key == k
    requires HasKey(s, x) && x != k
    ensures HasKey(Del(s, k), x)
  {
    var p := Rank(s, k);
    DelAt(s, k);
    var j :| 0 <= j < |s| && s[j].key == x;
    var j2: nat := if j < p then j else j - 1;
    assert s[j] == Del(s, k)[j2];
  }

  // ---------------------------------------------------------------------
  // Entries of one subtree among those of its siblings.

  /** A key that lies strictly between the entries before and after `m` is placed within `m`. */
  lemma RankMiddle(a: seq<Ent>, m: seq<Ent>, c: seq<Ent>, k: int)
    requires Under(a, k) && Above(c, k)
    ensures Rank(a + m + c, k) == |a| + Rank(m, k)
  {
    var s := a + m + c;
    var r := |a| + Rank(m, k);
    forall j | 0 <= j < r ensures s[j].key < k {
      if j < |a| { assert s[j] == a[j]; } else { assert s[j] == m[j - |a|]; }
    }
    if r < |s| {
      if Rank(m, k) < |m| { assert s[r] == m[Rank(m, k)]; } else { assert s[r] == c[0]; }
    }
    RankUnique(s, k, r);
  }

  lemma HasKeyMiddle(a: seq<Ent>, m: seq<Ent>, c: seq<Ent>, k: int)
    requires Under(a, k) && Above(c, k)
    ensures HasKey(a + m + c, k) <==> HasKey(m, k)
  {
    var s := a + m + c;
    assert forall j :: 0 <= j < |a| ==> s[j] == a[j];
    assert forall j :: |a| + |m| <= j < |s| ==> s[j] == c[j - |a| - |m|];
    if HasKey(s, k) {
      var j :| 0 <= j < |s| && s[j].key == k;
      assert m[j - |a|] == s[j];
    }
    if HasKey(m, k) {
      var j :| 0 <= j < |m| && m[j].key == k;
      assert s[|a| + j] == m[j];
    }
  }

  lemma Assoc5<T>(a: seq<T>, b: seq<T>, c: seq<T>, d: seq<T>, e: seq<T>)
    ensures (a + b) + c + (d + e) == a + (b + c + d) + e
  {
  }

  lemma SliceLeft(a: seq<Ent>, m: seq<Ent>, c: seq<Ent>, p: nat)
    requires p <= |m|
    ensures (a + m + c)[..|a| + p] == a + m[..p]
  {
  }

  lemma SliceRight(a: seq<Ent>, m: seq<Ent>, c: seq<Ent>, p: nat)
    requires p <= |m|
    ensures (a + m + c)[|a| + p..] == m[p..] + c
  {
  }

  lemma InsMiddle(a: seq<Ent>, m: seq<Ent>, c: seq<Ent>, e: Ent)
    requires Under(a, e.key) && Above(c, e.key)
    ensures Ins(a + m + c, e) == a + Ins(m, e) + c
  {
    var s := a + m + c;
    RankMiddle(a, m, c, e.key);
    var p := Rank(m, e.key);
    SliceLeft(a, m, c, p);
    SliceRight(a, m, c, p);
    assert Ins(s, e) == (a + m[..p]) + [e] + (m[p..] + c);
    Assoc5(a, m[..p], [e], m[p..], c);
  }

  lemma DelMiddle(a: seq<Ent>, m: seq<Ent>, c: seq<Ent>, k: int)
    requires Under(a, k) && Above(c, k)
    requires Rank(m, k) < |m|
    ensures Rank(a + m + c, k) < |a + m + c|
    ensures Del(a + m + c, k) == a + Del(m, k) + c
  {
    var s := a + m + c;
    RankMiddle(a, m, c, k);
    var p := Rank(m, k);
    SliceLeft(a, m, c, p);
    SliceRight(a, m, c, p + 1);
    assert Del(s, k) == (a + m[..p]) + (m[p + 1..] + c);
  }

  /** A key above every entry is appended at the end. */
  lemma InsLast(s: seq<Ent>, e: Ent)
    requires Under(s, e.key)
    ensures Ins(s, e) == s + [e]
  {
    RankUnique(s, e.key, |s|);
  }

  lemma UnderMono(s: seq<Ent>, k: int, k': int)
    requires Under(s, k) && k <= k'
    ensures Under(s, k')
  {
  }

  lemma AboveMono(s: seq<Ent>, k: int, k': int)
    requires Above(s, k) && k' <= k
    ensures Above(s, k')
  {
  }

  /** Bounds survive insertion of a key within them. */
  lemma InsBounds(s: seq<Ent>, e: Ent, lo: int, hi: int)
    requires Above(s, lo) && AtMost(s, hi) && lo < e.key <= hi
    ensures Above(Ins(s, e), lo) && AtMost(Ins(s, e), hi)
  {
    var p := Rank(s, e.key);
    var t := Ins(s, e);
    forall j | 0 <= j < |t| ensures lo < t[j].key <= hi {
      if j < p { assert t[j] == s[j]; } else if j > p { assert t[j] == s[j - 1]; }
    }
  }

  /** Bounds survive deletion. */
  lemma DelBounds(s: seq<Ent>, k: int, lo: int, hi: int)
    requires Rank(s, k) < |s|
    requires Above(s, lo) && AtMost(s, hi)
    ensures Above(Del(s, k), lo) && AtMost(Del(s, k), hi)
  {
    var p := Rank(s, k);
    var t := Del(s, k);
    forall j | 0 <= j < |t| ensures lo < t[j].key <= hi {
      if j < p { assert t[j] == s[j]; } else { assert t[j] == s[j + 1]; }
    }
  }
}
