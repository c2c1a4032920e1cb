/**
 * The state of the nghttp3 hash map (lib/nghttp3_map.c) as plain values:
 * the three parallel slot arrays as sequences, and the invariants every
 * operation keeps.  The class in map.dfy works on arrays and states its
 * contracts through these predicates.
 */
module MapTable {
  import opened MapHash
  import opened NghttpTypes

  const NULL: Ptr := 0

  const INITIAL_HASHBITS: nat := 4
  /** `NGHTTP3_MAP_MAX_HASHBITS`, `sizeof(size_t) * 8 - 1`. */
  const MAX_HASHBITS: nat := SIZE_T_BITS - 1

  /** Number of slots the arrays hold: nothing is allocated while hashbits is 0. */
  function Capacity(hashbits: nat): nat {
    if hashbits == 0 then 0 else Pow2(hashbits)
  }

  /**
   * `tablelen - (tablelen >> 3)` with `tablelen = 1 << hashbits`: 7/8 of the
   * table, and 1 for the unallocated table.
   */
  function Threshold(hashbits: nat): nat {
    Pow2(hashbits) - Pow2(hashbits) / 8
  }

  /** The hashbits a growing insert asks `map_resize` for. */
  function NewHashbits(hashbits: nat): nat {
    if hashbits != 0 then hashbits + 1 else INITIAL_HASHBITS
  }

  // Index arithmetic on a table of n slots.  `(idx + 1) & mask` with
  // `mask = tablelen - 1` is the successor of idx with wrap-around.

  function Next(i: nat, n: nat): (r: nat)
    requires i < n
    ensures r < n
  {
    if i + 1 == n then 0 else i + 1
  }

  function Prev(i: nat, n: nat): (r: nat)
    requires i < n
    ensures r < n
  {
    if i == 0 then n - 1 else i - 1
  }

  /** Forward distance from slot h to slot j, `(j - h) mod n`. */
  function Dist(h: nat, j: nat, n: nat): (d: nat)
    requires h < n && j < n
    ensures d < n
  {
    if h <= j then j - h else j + n - h
  }

  /** The slot t steps forward from h. */
  function Add(h: nat, t: nat, n: nat): (r: nat)
    requires h < n && t < n
    ensures r < n
  {
    if h + t < n then h + t else h + t - n
  }

  /** One step forward lengthens the distance from h by one, short of a full turn. */
  lemma DistForward(h: nat, j: nat, n: nat)
    requires h < n && j < n && Dist(h, j, n) + 1 < n
    ensures Dist(h, Next(j, n), n) == Dist(h, j, n) + 1
  {
  }

  /** One step forward shortens the distance to a different slot e by one. */
  lemma DistToward(j: nat, e: nat, n: nat)
    requires j < n && e < n && j != e
    ensures Dist(Next(j, n), e, n) + 1 == Dist(j, e, n)
  {
  }

  /** The ideal bucket of a key in a table of 2^hashbits slots. */
  function Home(key: uint64, seed: uint64, hashbits: nat): (r: nat)
    requires 1 <= hashbits < SIZE_T_BITS
    ensures r < Pow2(hashbits)
  {
    MapIndex(key, seed, hashbits)
  }

  /**
   * Every occupied slot other than `hole` stores one plus the distance from
   * its key's ideal bucket.
   */
  ghost predicate PslOk(keys: seq<uint64>, psl: seq<nat>, hashbits: nat, seed: uint64, hole: int)
  {
    && 1 <= hashbits < SIZE_T_BITS
    && |keys| == |psl| == Pow2(hashbits)
    && forall i :: 0 <= i < |psl| && i != hole && psl[i] != 0 ==>
         psl[i] - 1 == Dist(Home(keys[i], seed, hashbits), i, |psl|)
  }

  /**
   * The Robin Hood invariant in its local form: an entry displaced by d > 0
   * slots sits right after an entry displaced by at least d - 1.
   */
  ghost predicate Robin(psl: seq<nat>)
  {
    forall i {:trigger Prev(i, |psl|)} :: 0 <= i < |psl| && psl[i] > 1 ==> psl[Prev(i, |psl|)] >= psl[i] - 1
  }

  lemma RobinAt(psl: seq<nat>, i: nat)
    requires Robin(psl) && i < |psl|
    ensures psl[i] > 1 ==> psl[Prev(i, |psl|)] >= psl[i] - 1
  {
  }

  /**
   * The abstract map `contents` is held by the occupied slots other than
   * `hole`; `pos` says where each key is stored.  Keys are therefore stored
   * at most once.
   */
  ghost predicate Abs(keys: seq<uint64>, data: seq<Ptr>, psl: seq<nat>,
                      contents: map<uint64, Ptr>, pos: map<uint64, nat>, hole: int)
  {
    && |keys| == |data| == |psl|
    && contents.Keys == pos.Keys
    && (forall k :: k in pos ==>
          && pos[k] < |psl| && pos[k] != hole && psl[pos[k]] != 0
          && keys[pos[k]] == k && data[pos[k]] == contents[k])
    && (forall i :: 0 <= i < |psl| && i != hole && psl[i] != 0 ==>
          keys[i] in pos && pos[keys[i]] == i)
  }

  /** The occupied slots at index lo and above, in ascending order. */
  function LiveSlots(psl: seq<nat>, lo: nat): (r: seq<nat>)
    decreases |psl| - lo
  {
    if lo >= |psl| then []
    else (if psl[lo] != 0 then [lo] else []) + LiveSlots(psl, lo + 1)
  }

  /** Number of occupied slots. */
  function Count(psl: seq<nat>): nat {
    |LiveSlots(psl, 0)|
  }

  /** The whole invariant of a map between operations. */
  ghost predicate TableOk(keys: seq<uint64>, data: seq<Ptr>, psl: seq<nat>, hashbits: nat,
                          seed: uint64, contents: map<uint64, Ptr>, pos: map<uint64, nat>, size: nat)
  {
    && (hashbits == 0 || INITIAL_HASHBITS <= hashbits <= MAX_HASHBITS)
    && |keys| == |data| == |psl| == Capacity(hashbits)
    && (hashbits != 0 ==> PslOk(keys, psl, hashbits, seed, -1) && Robin(psl))
    && Abs(keys, data, psl, contents, pos, -1)
    && (forall k :: k in contents ==> contents[k] != NULL)
    && size == |contents| == Count(psl)
  }

  // ---------------------------------------------------------------------
  // Lemmas about the slot predicates.

  /** Slot u steps before j. */
  function Back(j: nat, u: nat, n: nat): (r: nat)
    requires j < n && u < n
    ensures r < n
  {
    if u <= j then j - u else j + n - u
  }

  /** Walking back from an entry, the displacements drop by at most one per slot. */
  lemma {:induction false} Chain(psl: seq<nat>, j: nat, u: nat)
    requires Robin(psl) && j < |psl| && u < |psl| && u < psl[j]
    ensures psl[Back(j, u, |psl|)] >= psl[j] - u
  {
    if u > 0 {
      Chain(psl, j, u - 1);
      var b := Back(j, u - 1, |psl|);
      assert psl[b] > 1;
      assert Prev(b, |psl|) == Back(j, u, |psl|);
    }
  }

  /**
   * If an entry is stored t' >= t slots past its ideal bucket h, the slot t
   * steps past h is occupied by an entry displaced by at least t.  This is
   * what lets lookups stop at the first slot whose psl is too small.
   */
  lemma Reach(keys: seq<uint64>, psl: seq<nat>, hashbits: nat, seed: uint64, j: nat, t: nat)
    requires PslOk(keys, psl, hashbits, seed, -1) && Robin(psl)
    requires j < |psl| && psl[j] != 0 && t < psl[j]
    ensures psl[Add(Home(keys[j], seed, hashbits), t, |psl|)] >= t + 1
  {
    var n := |psl|;
    var h := Home(keys[j], seed, hashbits);
    var u := psl[j] - 1 - t;
    Chain(psl, j, u);
    assert Back(j, u, n) == Add(h, t, n);
  }

  /**
   * A lookup of key that reached slot idx, t slots past the key's bucket,
   * without meeting the key, and finds there an entry closer to its own
   * bucket than t, may stop: the key is absent.
   */
  lemma Absent(keys: seq<uint64>, data: seq<Ptr>, psl: seq<nat>, hashbits: nat, seed: uint64,
               contents: map<uint64, Ptr>, pos: map<uint64, nat>, key: uint64, idx: nat, t: nat)
    requires PslOk(keys, psl, hashbits, seed, -1) && Robin(psl)
    requires Abs(keys, data, psl, contents, pos, -1)
    requires idx < |psl| && t == Dist(Home(key, seed, hashbits), idx, |psl|) && psl[idx] < t + 1
    requires key in contents ==> Dist(Home(key, seed, hashbits), pos[key], |psl|) >= t
    ensures key !in contents
  {
    if key in contents {
      var h := Home(key, seed, hashbits);
      assert Add(h, t, |psl|) == idx;
      Reach(keys, psl, hashbits, seed, pos[key], t);
    }
  }

  /** Writing v at slot i keeps the Robin Hood invariant if v fits between its neighbours. */
  lemma RobinWrite(psl: seq<nat>, i: nat, v: nat)
    requires Robin(psl) && 3 <= |psl| && i < |psl|
    requires v > 1 ==> psl[Prev(i, |psl|)] >= v - 1
    requires psl[Next(i, |psl|)] > 1 ==> v >= psl[Next(i, |psl|)] - 1
    ensures Robin(psl[i := v])
  {
    var n := |psl|;
    var q := psl[i := v];
    forall j | 0 <= j < n && q[j] > 1
      ensures q[Prev(j, n)] >= q[j] - 1
    {
      if j == Next(i, n) {
        assert Prev(j, n) == i;
      }
    }
  }

  lemma {:induction false} LiveSlotsBounds(psl: seq<nat>, lo: nat)
    ensures |LiveSlots(psl, lo)| <= |psl| - lo || lo >= |psl|
    ensures forall k :: 0 <= k < |LiveSlots(psl, lo)| ==>
              var s := LiveSlots(psl, lo)[k]; lo <= s < |psl| && psl[s] != 0
    decreases |psl| - lo
  {
    if lo < |psl| {
      LiveSlotsBounds(psl, lo + 1);
    }
  }

  /** Overwriting a slot changes the number of occupied slots only if its emptiness changes. */
  lemma {:induction false} CountWrite(psl: seq<nat>, lo: nat, i: nat, v: nat)
    requires i < |psl|
    ensures |LiveSlots(psl[i := v], lo)| ==
            |LiveSlots(psl, lo)|
            + (if lo <= i && v != 0 then 1 else 0)
            - (if lo <= i && psl[i] != 0 then 1 else 0)
    decreases |psl| - lo
  {
    if lo < |psl| {
      CountWrite(psl, lo + 1, i, v);
    }
  }

  /** If fewer slots are occupied than exist, some slot is empty. */
  lemma {:induction false} EmptySlot(psl: seq<nat>, lo: nat) returns (e: nat)
    requires lo <= |psl| && |LiveSlots(psl, lo)| < |psl| - lo
    ensures lo <= e < |psl| && psl[e] == 0
    decreases |psl| - lo
  {
    if psl[lo] == 0 {
      e := lo;
    } else {
      assert LiveSlots(psl, lo) == [lo] + LiveSlots(psl, lo + 1);
      e := EmptySlot(psl, lo + 1);
    }
  }

  /** A table without occupied slots has no live slots. */
  lemma {:induction false} NoneLive(psl: seq<nat>, lo: nat)
    requires forall i :: lo <= i < |psl| ==> psl[i] == 0
    ensures LiveSlots(psl, lo) == []
    decreases |psl| - lo
  {
    if lo < |psl| {
      NoneLive(psl, lo + 1);
    }
  }

  // ---------------------------------------------------------------------
  // One step of the insertion probe of `map_insert`.

  /** The slot invariants of an allocated table without a hole. */
  ghost predicate Slots(keys: seq<uint64>, data: seq<Ptr>, psl: seq<nat>, hashbits: nat, seed: uint64,
                        contents: map<uint64, Ptr>, pos: map<uint64, nat>)
  {
    PslOk(keys, psl, hashbits, seed, -1) && Robin(psl) && Abs(keys, data, psl, contents, pos, -1)
  }

  /**
   * The state of the probe: the table keeps its invariants, and the
   * candidate entry (ck, cd) with running psl cp stands at slot idx, fits
   * after the slot before it, and lies within reach of the empty slot e.
   */
  ghost predicate Probing(keys: seq<uint64>, data: seq<Ptr>, psl: seq<nat>, hashbits: nat, seed: uint64,
                          contents: map<uint64, Ptr>, pos: map<uint64, nat>,
                          idx: nat, ck: uint64, cp: nat, e: nat)
  {
    && Slots(keys, data, psl, hashbits, seed, contents, pos)
    && 3 <= |psl| && idx < |psl| && e < |psl| && psl[e] == 0
    && 1 <= cp && cp - 1 == Dist(Home(ck, seed, hashbits), idx, |psl|)
    && cp - 1 + Dist(idx, e, |psl|) < |psl|
    && (cp > 1 ==> psl[Prev(idx, |psl|)] >= cp - 1)
  }

  /**
   * The resident of slot idx is at least as far from home and is not the
   * candidate's key: the candidate moves on, and if its key is stored at
   * all, it is stored further on.
   */
  lemma ProbeSkip(keys: seq<uint64>, data: seq<Ptr>, psl: seq<nat>, hashbits: nat, seed: uint64,
                  contents: map<uint64, Ptr>, pos: map<uint64, nat>,
                  idx: nat, ck: uint64, cp: nat, e: nat)
    requires Probing(keys, data, psl, hashbits, seed, contents, pos, idx, ck, cp, e)
    requires psl[idx] >= cp && keys[idx] != ck
    requires ck in contents ==> Dist(Home(ck, seed, hashbits), pos[ck], |psl|) >= cp - 1
    ensures Probing(keys, data, psl, hashbits, seed, contents, pos, Next(idx, |psl|), ck, cp + 1, e)
    ensures ck in contents ==> Dist(Home(ck, seed, hashbits), pos[ck], |psl|) >= cp
    ensures Dist(Next(idx, |psl|), e, |psl|) < Dist(idx, e, |psl|)
  {
    var n := |psl|;
    DistToward(idx, e, n);
    DistForward(Home(ck, seed, hashbits), idx, n);
    if ck in contents {
      assert pos[ck] != idx;
    }
  }

  /** Storing key k with psl v in slot i keeps every psl correct if v is. */
  lemma PslWrite(keys: seq<uint64>, psl: seq<nat>, hashbits: nat, seed: uint64, i: nat, k: uint64, v: nat)
    requires PslOk(keys, psl, hashbits, seed, -1) && i < |psl|
    requires v != 0 ==> v - 1 == Dist(Home(k, seed, hashbits), i, |psl|)
    ensures PslOk(keys[i := k], psl[i := v], hashbits, seed, -1)
  {
  }

  /** Replacing the resident of an occupied slot by a new key moves that key out of the map. */
  lemma AbsReplace(keys: seq<uint64>, data: seq<Ptr>, psl: seq<nat>,
                   contents: map<uint64, Ptr>, pos: map<uint64, nat>,
                   idx: nat, ck: uint64, cd: Ptr, v: nat)
    requires Abs(keys, data, psl, contents, pos, -1)
    requires idx < |psl| && psl[idx] != 0 && v != 0 && ck !in contents
    ensures keys[idx] in contents && contents[keys[idx]] == data[idx]
    ensures Abs(keys[idx := ck], data[idx := cd], psl[idx := v],
                (contents - {keys[idx]})[ck := cd], (pos - {keys[idx]})[ck := idx], -1)
  {
    var rk := keys[idx];
    var c' := (contents - {rk})[ck := cd];
    var p' := (pos - {rk})[ck := idx];
    var keys', data', psl' := keys[idx := ck], data[idx := cd], psl[idx := v];
    forall k | k in p'
      ensures p'[k] < |psl| && psl'[p'[k]] != 0 && keys'[p'[k]] == k && data'[p'[k]] == c'[k]
    {
      if k != ck {
        assert pos[k] != idx;
      }
    }
  }

  /** Filling an empty slot adds its key to the map. */
  lemma AbsFill(keys: seq<uint64>, data: seq<Ptr>, psl: seq<nat>,
                contents: map<uint64, Ptr>, pos: map<uint64, nat>,
                idx: nat, ck: uint64, cd: Ptr, v: nat)
    requires Abs(keys, data, psl, contents, pos, -1)
    requires idx < |psl| && psl[idx] == 0 && v != 0 && ck !in contents
    ensures Abs(keys[idx := ck], data[idx := cd], psl[idx := v], contents[ck := cd], pos[ck := idx], -1)
  {
    var p' := pos[ck := idx];
    var psl' := psl[idx := v];
    forall k | k in p'
      ensures p'[k] < |psl| && psl'[p'[k]] != 0
    {
    }
  }

  /**
   * The resident of slot idx is closer to home than the candidate: they
   * trade places and the former resident becomes the candidate.
   */
  lemma ProbeSwap(keys: seq<uint64>, data: seq<Ptr>, psl: seq<nat>, hashbits: nat, seed: uint64,
                  contents: map<uint64, Ptr>, pos: map<uint64, nat>,
                  idx: nat, ck: uint64, cd: Ptr, cp: nat, e: nat)
    requires Probing(keys, data, psl, hashbits, seed, contents, pos, idx, ck, cp, e)
    requires 0 < psl[idx] < cp && ck !in contents
    ensures Probing(keys[idx := ck], data[idx := cd], psl[idx := cp], hashbits, seed,
                    (contents - {keys[idx]})[ck := cd], (pos - {keys[idx]})[ck := idx],
                    Next(idx, |psl|), keys[idx], psl[idx] + 1, e)
    ensures Dist(Next(idx, |psl|), e, |psl|) < Dist(idx, e, |psl|)
  {
    var n := |psl|;
    var nx := Next(idx, n);
    var keys', data', psl' := keys[idx := ck], data[idx := cd], psl[idx := cp];
    assert Prev(nx, n) == idx;
    assert Robin(psl') by {
      RobinAt(psl, nx);
      RobinWrite(psl, idx, cp);
    }
    assert PslOk(keys', psl', hashbits, seed, -1) by {
      PslWrite(keys, psl, hashbits, seed, idx, ck, cp);
    }
    assert Abs(keys', data', psl', (contents - {keys[idx]})[ck := cd], (pos - {keys[idx]})[ck := idx], -1) by {
      AbsReplace(keys, data, psl, contents, pos, idx, ck, cd, cp);
    }
    assert psl[idx] - 1 == Dist(Home(keys[idx], seed, hashbits), idx, n);
  }

  /** Trading a stored entry (rk, rd) for a new one (ck, cd) keeps the number and the kind of values. */
  lemma SwapMaps(contents: map<uint64, Ptr>, rk: uint64, rd: Ptr, ck: uint64, cd: Ptr)
    requires rk in contents && contents[rk] == rd && ck !in contents
    requires cd != NULL && forall k :: k in contents ==> contents[k] != NULL
    ensures var c' := (contents - {rk})[ck := cd];
            && rk !in c' && c'[rk := rd] == contents[ck := cd] && |c'| == |contents|
            && rd != NULL && (forall k :: k in c' ==> c'[k] != NULL)
  {
    var c' := (contents - {rk})[ck := cd];
    assert (contents - {rk}).Keys == contents.Keys - {rk};
    assert c'.Keys == contents.Keys - {rk} + {ck};
    assert c'[rk := rd] == contents[ck := cd];
  }

  /** The candidate lands in an empty slot, and the table holds one entry more. */
  lemma ProbePlace(keys: seq<uint64>, data: seq<Ptr>, psl: seq<nat>, hashbits: nat, seed: uint64,
                   contents: map<uint64, Ptr>, pos: map<uint64, nat>, size: nat,
                   idx: nat, ck: uint64, cd: Ptr, cp: nat, e: nat)
    requires Probing(keys, data, psl, hashbits, seed, contents, pos, idx, ck, cp, e)
    requires INITIAL_HASHBITS <= hashbits <= MAX_HASHBITS
    requires forall k :: k in contents ==> contents[k] != NULL
    requires size == |contents| == Count(psl)
    requires psl[idx] == 0 && ck !in contents && cd != NULL
    ensures TableOk(keys[idx := ck], data[idx := cd], psl[idx := cp], hashbits, seed,
                    contents[ck := cd], pos[ck := idx], size + 1)
  {
    var n := |psl|;
    var psl' := psl[idx := cp];
    var c' := contents[ck := cd];
    assert Robin(psl') by {
      var nx := Next(idx, n);
      assert Prev(nx, n) == idx;
      RobinAt(psl, nx);
      RobinWrite(psl, idx, cp);
    }
    assert Count(psl') == size + 1 by {
      CountWrite(psl, 0, idx, cp);
    }
    assert PslOk(keys[idx := ck], psl', hashbits, seed, -1) by {
      PslWrite(keys, psl, hashbits, seed, idx, ck, cp);
    }
    assert Abs(keys[idx := ck], data[idx := cd], psl', c', pos[ck := idx], -1) by {
      AbsFill(keys, data, psl, contents, pos, idx, ck, cd, cp);
    }
    assert |c'| == size + 1 && forall k :: k in c' ==> c'[k] != NULL;
  }

  /**
   * The loop invariant of `map_insert` inserting (key, d) into the table
   * (keys0, data0, psl0) holding contents0.  Before the first trade the
   * table is untouched and the candidate is the new entry itself; after it,
   * the table together with the displaced candidate holds contents0 plus
   * the new entry.
   */
  ghost predicate Inserting(keys: seq<uint64>, data: seq<Ptr>, psl: seq<nat>, hashbits: nat, seed: uint64,
                            contents: map<uint64, Ptr>, pos: map<uint64, nat>, size: nat,
                            idx: nat, ck: uint64, cd: Ptr, cp: nat, e: nat, swapped: bool,
                            key: uint64, d: Ptr, keys0: seq<uint64>, data0: seq<Ptr>, psl0: seq<nat>,
                            contents0: map<uint64, Ptr>, pos0: map<uint64, nat>)
  {
    && Probing(keys, data, psl, hashbits, seed, contents, pos, idx, ck, cp, e)
    && INITIAL_HASHBITS <= hashbits <= MAX_HASHBITS
    && Count(psl) == size && |contents| == size
    && cd != NULL && (forall k :: k in contents ==> contents[k] != NULL)
    && (!swapped ==>
          && ck == key && cd == d && keys == keys0 && data == data0 && psl == psl0
          && contents == contents0 && pos == pos0
          && (key in contents ==> Dist(Home(key, seed, hashbits), pos[key], |psl|) >= cp - 1))
    && (swapped ==> key !in contents0 && ck !in contents && contents[ck := cd] == contents0[key := d])
  }

  /**
   * A probe for key starts at its ideal bucket; an allocated table that is
   * not full has an empty slot somewhere ahead.
   */
  lemma ProbeStart(keys: seq<uint64>, data: seq<Ptr>, psl: seq<nat>, hashbits: nat, seed: uint64,
                   contents: map<uint64, Ptr>, pos: map<uint64, nat>, size: nat, key: uint64)
    returns (e: nat)
    requires TableOk(keys, data, psl, hashbits, seed, contents, pos, size)
    requires hashbits != 0 && size < |psl|
    ensures Probing(keys, data, psl, hashbits, seed, contents, pos, Home(key, seed, hashbits), key, 1, e)
  {
    Pow2Monotone(2, hashbits);
    assert Pow2(2) == 4;
    e := EmptySlot(psl, 0);
  }

  /** A probe that meets key at slot idx has found its entry. */
  lemma ProbeHit(keys: seq<uint64>, data: seq<Ptr>, psl: seq<nat>, contents: map<uint64, Ptr>,
                 pos: map<uint64, nat>, key: uint64, idx: nat)
    requires Abs(keys, data, psl, contents, pos, -1)
    requires idx < |psl| && psl[idx] != 0 && keys[idx] == key
    ensures key in contents && contents[key] == data[idx] && pos[key] == idx
  {
  }

  /** The probe starts at the key's ideal bucket, with an empty slot somewhere ahead. */
  lemma InsertStart(keys: seq<uint64>, data: seq<Ptr>, psl: seq<nat>, hashbits: nat, seed: uint64,
                    contents: map<uint64, Ptr>, pos: map<uint64, nat>, size: nat, key: uint64, d: Ptr)
    returns (e: nat)
    requires TableOk(keys, data, psl, hashbits, seed, contents, pos, size)
    requires hashbits != 0 && size < |psl| && d != NULL
    ensures Inserting(keys, data, psl, hashbits, seed, contents, pos, size,
                      Home(key, seed, hashbits), key, d, 1, e, false,
                      key, d, keys, data, psl, contents, pos)
  {
    e := ProbeStart(keys, data, psl, hashbits, seed, contents, pos, size, key);
  }

  /** The resident of slot idx stays: the probe moves to the next slot. */
  lemma InsertSkip(keys: seq<uint64>, data: seq<Ptr>, psl: seq<nat>, hashbits: nat, seed: uint64,
                   contents: map<uint64, Ptr>, pos: map<uint64, nat>, size: nat,
                   idx: nat, ck: uint64, cd: Ptr, cp: nat, e: nat, swapped: bool,
                   key: uint64, d: Ptr, keys0: seq<uint64>, data0: seq<Ptr>, psl0: seq<nat>,
                   contents0: map<uint64, Ptr>, pos0: map<uint64, nat>)
    requires Inserting(keys, data, psl, hashbits, seed, contents, pos, size, idx, ck, cd, cp, e, swapped,
                       key, d, keys0, data0, psl0, contents0, pos0)
    requires psl[idx] >= cp && keys[idx] != ck
    ensures Inserting(keys, data, psl, hashbits, seed, contents, pos, size,
                      Next(idx, |psl|), ck, cd, cp + 1, e, swapped,
                      key, d, keys0, data0, psl0, contents0, pos0)
    ensures Dist(Next(idx, |psl|), e, |psl|) < Dist(idx, e, |psl|)
  {
    ProbeSkip(keys, data, psl, hashbits, seed, contents, pos, idx, ck, cp, e);
  }

  /** The candidate's key is the resident of slot idx: it was in the map all along. */
  lemma InsertFound(keys: seq<uint64>, data: seq<Ptr>, psl: seq<nat>, hashbits: nat, seed: uint64,
                    contents: map<uint64, Ptr>, pos: map<uint64, nat>, size: nat,
                    idx: nat, ck: uint64, cd: Ptr, cp: nat, e: nat, swapped: bool,
                    key: uint64, d: Ptr, keys0: seq<uint64>, data0: seq<Ptr>, psl0: seq<nat>,
                    contents0: map<uint64, Ptr>, pos0: map<uint64, nat>)
    requires Inserting(keys, data, psl, hashbits, seed, contents, pos, size, idx, ck, cd, cp, e, swapped,
                       key, d, keys0, data0, psl0, contents0, pos0)
    requires psl[idx] != 0 && keys[idx] == ck
    ensures !swapped && key in contents0
    ensures keys == keys0 && data == data0 && psl == psl0 && contents == contents0 && pos == pos0
  {
  }

  /** Slot idx is empty: the candidate lands there and the insertion is complete. */
  lemma InsertPlace(keys: seq<uint64>, data: seq<Ptr>, psl: seq<nat>, hashbits: nat, seed: uint64,
                    contents: map<uint64, Ptr>, pos: map<uint64, nat>, size: nat,
                    idx: nat, ck: uint64, cd: Ptr, cp: nat, e: nat, swapped: bool,
                    key: uint64, d: Ptr, keys0: seq<uint64>, data0: seq<Ptr>, psl0: seq<nat>,
                    contents0: map<uint64, Ptr>, pos0: map<uint64, nat>)
    requires Inserting(keys, data, psl, hashbits, seed, contents, pos, size, idx, ck, cd, cp, e, swapped,
                       key, d, keys0, data0, psl0, contents0, pos0)
    requires psl[idx] == 0
    ensures key !in contents0 && contents[ck := cd] == contents0[key := d]
    ensures TableOk(keys[idx := ck], data[idx := cd], psl[idx := cp], hashbits, seed,
                    contents[ck := cd], pos[ck := idx], size + 1)
  {
    if !swapped {
      Absent(keys, data, psl, hashbits, seed, contents, pos, key, idx, cp - 1);
    }
    ProbePlace(keys, data, psl, hashbits, seed, contents, pos, size, idx, ck, cd, cp, e);
  }

  /**
   * The resident of slot idx is closer to its bucket than the candidate:
   * they trade places, and the former resident walks on.
   */
  lemma InsertSwap(keys: seq<uint64>, data: seq<Ptr>, psl: seq<nat>, hashbits: nat, seed: uint64,
                   contents: map<uint64, Ptr>, pos: map<uint64, nat>, size: nat,
                   idx: nat, ck: uint64, cd: Ptr, cp: nat, e: nat, swapped: bool,
                   key: uint64, d: Ptr, keys0: seq<uint64>, data0: seq<Ptr>, psl0: seq<nat>,
                   contents0: map<uint64, Ptr>, pos0: map<uint64, nat>)
    requires Inserting(keys, data, psl, hashbits, seed, contents, pos, size, idx, ck, cd, cp, e, swapped,
                       key, d, keys0, data0, psl0, contents0, pos0)
    requires 0 < psl[idx] < cp
    ensures Inserting(keys[idx := ck], data[idx := cd], psl[idx := cp], hashbits, seed,
                      (contents - {keys[idx]})[ck := cd], (pos - {keys[idx]})[ck := idx], size,
                      Next(idx, |psl|), keys[idx], data[idx], psl[idx] + 1, e, true,
                      key, d, keys0, data0, psl0, contents0, pos0)
    ensures Dist(Next(idx, |psl|), e, |psl|) < Dist(idx, e, |psl|)
  {
    if !swapped {
      Absent(keys, data, psl, hashbits, seed, contents, pos, key, idx, cp - 1);
    }
    ProbeSwap(keys, data, psl, hashbits, seed, contents, pos, idx, ck, cd, cp, e);
    AbsReplace(keys, data, psl, contents, pos, idx, ck, cd, cp);
    SwapMaps(contents, keys[idx], data[idx], ck, cd);
    CountWrite(psl, 0, idx, cp);
  }

  // ---------------------------------------------------------------------
  // The backward shift of `nghttp3_map_remove`.

  /**
   * The state of the backward shift: slot dest is the hole left by the
   * removed entry (it still holds a stale psl, at least 1), every other
   * occupied slot holds an entry of contents with a correct psl, and the
   * Robin Hood invariant holds with the stale psl in place.
   */
  ghost predicate Shifting(keys: seq<uint64>, data: seq<Ptr>, psl: seq<nat>, hashbits: nat, seed: uint64,
                           contents: map<uint64, Ptr>, pos: map<uint64, nat>, dest: nat, e: nat)
  {
    && PslOk(keys, psl, hashbits, seed, dest) && Robin(psl)
    && Abs(keys, data, psl, contents, pos, dest)
    && 3 <= |psl| && dest < |psl| && psl[dest] != 0 && e < |psl| && psl[e] == 0
  }

  /** The loop invariant of the backward shift: Shifting plus the bookkeeping. */
  ghost predicate Removing(keys: seq<uint64>, data: seq<Ptr>, psl: seq<nat>, hashbits: nat, seed: uint64,
                           contents: map<uint64, Ptr>, pos: map<uint64, nat>, size: nat, dest: nat, e: nat)
  {
    && Shifting(keys, data, psl, hashbits, seed, contents, pos, dest, e)
    && INITIAL_HASHBITS <= hashbits <= MAX_HASHBITS
    && (forall k :: k in contents ==> contents[k] != NULL)
    && size == |contents| + 1 == Count(psl)
  }

  /** Removing the entry found at slot dest opens a hole there. */
  lemma ShiftStart(keys: seq<uint64>, data: seq<Ptr>, psl: seq<nat>, hashbits: nat, seed: uint64,
                   contents: map<uint64, Ptr>, pos: map<uint64, nat>, size: nat, key: uint64)
    returns (e: nat)
    requires TableOk(keys, data, psl, hashbits, seed, contents, pos, size)
    requires hashbits != 0 && size < |psl| && key in contents
    ensures Removing(keys, data, psl, hashbits, seed, contents - {key}, pos - {key}, size, pos[key], e)
    ensures Next(pos[key], |psl|) < |psl|
  {
    Pow2Monotone(2, hashbits);
    assert Pow2(2) == 4;
    e := EmptySlot(psl, 0);
    var dest := pos[key];
    var p' := pos - {key};
    forall i | 0 <= i < |psl| && i != dest && psl[i] != 0
      ensures keys[i] in p' && p'[keys[i]] == i
    {
      assert keys[i] != key;
    }
  }

  /**
   * The entry after the hole is displaced: it moves back into the hole
   * with its psl reduced by one, and the hole moves forward.
   */
  lemma ShiftStep(keys: seq<uint64>, data: seq<Ptr>, psl: seq<nat>, hashbits: nat, seed: uint64,
                  contents: map<uint64, Ptr>, pos: map<uint64, nat>, size: nat, dest: nat, idx: nat, e: nat,
                  k: uint64, d: Ptr, v: nat)
    requires Removing(keys, data, psl, hashbits, seed, contents, pos, size, dest, e)
    requires idx == Next(dest, |psl|) && psl[idx] > 1
    requires k == keys[idx] && d == data[idx] && v == psl[idx] - 1
    ensures Removing(keys[dest := k], data[dest := d], psl[dest := v],
                     hashbits, seed, contents, pos[k := dest], size, idx, e)
    ensures Dist(Next(idx, |psl|), e, |psl|) < Dist(idx, e, |psl|)
  {
    var n := |psl|;
    var psl' := psl[dest := v];
    assert Robin(psl') && Count(psl') == Count(psl) by {
      assert Prev(idx, n) == dest;
      RobinAt(psl, idx);
      RobinAt(psl, dest);
      RobinWrite(psl, dest, v);
      CountWrite(psl, 0, dest, v);
    }
    assert PslOk(keys[dest := k], psl', hashbits, seed, idx) by {
      ShiftPsl(keys, psl, hashbits, seed, dest);
    }
    assert Abs(keys[dest := k], data[dest := d], psl', contents, pos[k := dest], idx) by {
      ShiftAbs(keys, data, psl, contents, pos, dest);
    }
    assert psl'[idx] != 0 && psl'[e] == 0;
    DistToward(idx, e, n);
  }

  /** The moved entry's psl is correct in its new slot. */
  lemma ShiftPsl(keys: seq<uint64>, psl: seq<nat>, hashbits: nat, seed: uint64, dest: nat)
    requires PslOk(keys, psl, hashbits, seed, dest) && 3 <= |psl| && dest < |psl|
    requires psl[Next(dest, |psl|)] > 1
    ensures var idx := Next(dest, |psl|);
            PslOk(keys[dest := keys[idx]], psl[dest := psl[idx] - 1], hashbits, seed, idx)
  {
    var n := |psl|;
    var idx := Next(dest, n);
    var keys', psl' := keys[dest := keys[idx]], psl[dest := psl[idx] - 1];
    assert psl'[dest] - 1 == Dist(Home(keys'[dest], seed, hashbits), dest, n);
    forall i | 0 <= i < n && i != idx && psl'[i] != 0
      ensures psl'[i] - 1 == Dist(Home(keys'[i], seed, hashbits), i, n)
    {
    }
  }

  /** The moved entry is recorded at its new slot. */
  lemma ShiftAbs(keys: seq<uint64>, data: seq<Ptr>, psl: seq<nat>,
                 contents: map<uint64, Ptr>, pos: map<uint64, nat>, dest: nat)
    requires Abs(keys, data, psl, contents, pos, dest) && 3 <= |psl| && dest < |psl|
    requires psl[Next(dest, |psl|)] > 1
    ensures var idx := Next(dest, |psl|);
            Abs(keys[dest := keys[idx]], data[dest := data[idx]], psl[dest := psl[idx] - 1],
                contents, pos[keys[idx] := dest], idx)
  {
    var n := |psl|;
    var idx := Next(dest, n);
    var k := keys[idx];
    var p' := pos[k := dest];
    var keys', data', psl' := keys[dest := k], data[dest := data[idx]], psl[dest := psl[idx] - 1];
    assert k in pos && pos[k] == idx;
    forall j | j in p'
      ensures p'[j] < n && p'[j] != idx && psl'[p'[j]] != 0 && keys'[p'[j]] == j && data'[p'[j]] == contents[j]
    {
      if j != k {
        assert pos[j] != idx && pos[j] != dest;
      }
    }
    forall i | 0 <= i < n && i != idx && psl'[i] != 0
      ensures keys'[i] in p' && p'[keys'[i]] == i
    {
      if i != dest {
        assert keys[i] != k;
      }
    }
  }

  /** The entry after the hole is at home or absent: the hole is emptied and the removal is complete. */
  lemma ShiftEnd(keys: seq<uint64>, data: seq<Ptr>, psl: seq<nat>, hashbits: nat, seed: uint64,
                 contents: map<uint64, Ptr>, pos: map<uint64, nat>, size: nat, dest: nat, e: nat)
    requires Removing(keys, data, psl, hashbits, seed, contents, pos, size, dest, e)
    requires psl[Next(dest, |psl|)] <= 1
    ensures TableOk(keys, data, psl[dest := 0], hashbits, seed, contents, pos, size - 1)
  {
    var n := |psl|;
    assert Prev(Next(dest, n), n) == dest;
    RobinWrite(psl, dest, 0);
    CountWrite(psl, 0, dest, 0);
  }

  /** Threshold arithmetic behind the load-factor check. */
  lemma ThresholdGrows(hashbits: nat)
    requires hashbits == 0 || INITIAL_HASHBITS <= hashbits
    ensures Threshold(hashbits) < Threshold(NewHashbits(hashbits))
    ensures Threshold(NewHashbits(hashbits)) <= Pow2(NewHashbits(hashbits))
    ensures hashbits != 0 ==> Threshold(hashbits) < Pow2(hashbits)
  {
    if hashbits == 0 {
      assert Pow2(4) == 16;
    } else {
      Pow2Add(3, hashbits - 3);
      Pow2Add(3, hashbits - 2);
      assert Pow2(3) == 8;
      var q := Pow2(hashbits - 3);
      assert Pow2(hashbits - 2) == 2 * q;
      assert Pow2(hashbits) == 8 * q;
      assert Pow2(hashbits + 1) == 16 * q;
    }
  }

  /** A table of at least 16 slots keeps at least one slot free below the threshold. */
  lemma ThresholdBelowCapacity(hashbits: nat)
    requires INITIAL_HASHBITS <= hashbits
    ensures Threshold(hashbits) < Pow2(hashbits)
  {
    Pow2Monotone(3, hashbits);
    assert Pow2(3) == 8;
  }

  lemma {:induction false} ProperSubsetSmaller<T>(a: set<T>, b: set<T>, x: T)
    requires a <= b && x in b && x !in a
    ensures |a| < |b|
  {
    var b' := b - {x};
    assert a <= b';
    SubsetNotLarger(a, b');
  }

  lemma {:induction false} SubsetNotLarger<T>(a: set<T>, b: set<T>)
    requires a <= b
    ensures |a| <= |b|
    decreases |b|
  {
    if a != {} {
      var y :| y in a;
      SubsetNotLarger(a - {y}, b - {y});
    }
  }

  // ---------------------------------------------------------------------
  // `nghttp3_map_each`, `map_resize` and `nghttp3_map_clear`.

  /**
   * What `nghttp3_map_each` returns when its scan reaches slot i: the first
   * nonzero callback result over the occupied slots i, i + 1, ..., or 0.
   */
  function Visit(data: seq<Ptr>, psl: seq<nat>, f: (Ptr, Ptr) -> int, ptr: Ptr, i: nat): (r: int)
    requires |data| == |psl|
    decreases |psl| - i
  {
    if i >= |psl| then 0
    else if psl[i] != 0 && f(data[i], ptr) != 0 then f(data[i], ptr)
    else Visit(data, psl, f, ptr, i + 1)
  }

  /** The scan returns 0 exactly when every callback from slot i on returns 0, and otherwise one of their results. */
  lemma {:induction false} VisitSlots(data: seq<Ptr>, psl: seq<nat>, f: (Ptr, Ptr) -> int, ptr: Ptr, i: nat)
    requires |data| == |psl|
    ensures var r := Visit(data, psl, f, ptr, i);
            r == 0 <==> forall j :: i <= j < |psl| && psl[j] != 0 ==> f(data[j], ptr) == 0
    ensures var r := Visit(data, psl, f, ptr, i);
            r != 0 ==> exists j :: i <= j < |psl| && psl[j] != 0 && f(data[j], ptr) == r
    decreases |psl| - i
  {
    if i < |psl| {
      VisitSlots(data, psl, f, ptr, i + 1);
    }
  }

  /** The scan over slots sees exactly the values of the represented map. */
  lemma VisitContents(keys: seq<uint64>, data: seq<Ptr>, psl: seq<nat>,
                      contents: map<uint64, Ptr>, pos: map<uint64, nat>, f: (Ptr, Ptr) -> int, ptr: Ptr)
    requires Abs(keys, data, psl, contents, pos, -1)
    ensures Visit(data, psl, f, ptr, 0) == 0 <==> forall k :: k in contents ==> f(contents[k], ptr) == 0
    ensures Visit(data, psl, f, ptr, 0) != 0 ==>
              exists k :: k in contents && f(contents[k], ptr) == Visit(data, psl, f, ptr, 0)
  {
    VisitSlots(data, psl, f, ptr, 0);
    var r := Visit(data, psl, f, ptr, 0);
    if r != 0 {
      var j :| 0 <= j < |psl| && psl[j] != 0 && f(data[j], ptr) == r;
      assert keys[j] in contents && contents[keys[j]] == data[j];
    } else {
      forall k | k in contents
        ensures f(contents[k], ptr) == 0
      {
        assert psl[pos[k]] != 0 && data[pos[k]] == contents[k];
      }
    }
  }

  /** The entries of the slots below i, which `map_resize` has copied so far. */
  ghost function Prefix(contents: map<uint64, Ptr>, pos: map<uint64, nat>, i: nat): (r: map<uint64, Ptr>)
    ensures r.Keys <= contents.Keys
    ensures forall k :: k in r ==> r[k] == contents[k]
  {
    map k | k in contents && k in pos && pos[k] < i :: contents[k]
  }

  /** Slot i adds its entry to the prefix, if it has one. */
  lemma PrefixStep(keys: seq<uint64>, data: seq<Ptr>, psl: seq<nat>,
                   contents: map<uint64, Ptr>, pos: map<uint64, nat>, i: nat)
    requires Abs(keys, data, psl, contents, pos, -1) && i < |psl|
    ensures psl[i] != 0 ==> keys[i] in contents && data[i] == contents[keys[i]]
    ensures psl[i] != 0 ==> keys[i] !in Prefix(contents, pos, i)
    ensures psl[i] != 0 ==> Prefix(contents, pos, i + 1) == Prefix(contents, pos, i)[keys[i] := data[i]]
    ensures psl[i] == 0 ==> Prefix(contents, pos, i + 1) == Prefix(contents, pos, i)
  {
    var a, b := Prefix(contents, pos, i), Prefix(contents, pos, i + 1);
    if psl[i] != 0 {
      assert b == a[keys[i] := data[i]];
    } else {
      forall k | k in b
        ensures k in a
      {
        assert pos[k] != i;
      }
      assert b == a;
    }
  }

  /** No slot lies below 0, and every slot below |psl|. */
  lemma PrefixEnds(keys: seq<uint64>, data: seq<Ptr>, psl: seq<nat>,
                   contents: map<uint64, Ptr>, pos: map<uint64, nat>)
    requires Abs(keys, data, psl, contents, pos, -1)
    ensures Prefix(contents, pos, 0) == map[]
    ensures Prefix(contents, pos, |psl|) == contents
  {
    assert Prefix(contents, pos, |psl|).Keys == contents.Keys;
  }

  /**
   * The loop invariant of `map_resize`: the old table is intact and the new
   * table holds exactly the entries of the old slots below i.
   */
  ghost predicate Copying(keys: seq<uint64>, data: seq<Ptr>, psl: seq<nat>,
                          contents: map<uint64, Ptr>, pos: map<uint64, nat>, size: nat,
                          nkeys: seq<uint64>, ndata: seq<Ptr>, npsl: seq<nat>, newHashbits: nat, seed: uint64,
                          c: map<uint64, Ptr>, p: map<uint64, nat>, count: nat, i: nat)
  {
    && Abs(keys, data, psl, contents, pos, -1)
    && (forall k :: k in contents ==> contents[k] != NULL)
    && size == |contents| && newHashbits != 0 && size < Pow2(newHashbits) && i <= |psl|
    && TableOk(nkeys, ndata, npsl, newHashbits, seed, c, p, count)
    && c == Prefix(contents, pos, i)
  }

  lemma CopyStart(keys: seq<uint64>, data: seq<Ptr>, psl: seq<nat>, hashbits: nat, seed: uint64,
                  contents: map<uint64, Ptr>, pos: map<uint64, nat>, size: nat,
                  nkeys: seq<uint64>, ndata: seq<Ptr>, npsl: seq<nat>, newHashbits: nat)
    requires TableOk(keys, data, psl, hashbits, seed, contents, pos, size)
    requires TableOk(nkeys, ndata, npsl, newHashbits, seed, map[], map[], 0)
    requires newHashbits != 0 && size < Pow2(newHashbits)
    ensures Copying(keys, data, psl, contents, pos, size, nkeys, ndata, npsl, newHashbits, seed, map[], map[], 0, 0)
  {
    PrefixEnds(keys, data, psl, contents, pos);
  }

  lemma CopyEnd(keys: seq<uint64>, data: seq<Ptr>, psl: seq<nat>,
                contents: map<uint64, Ptr>, pos: map<uint64, nat>, size: nat,
                nkeys: seq<uint64>, ndata: seq<Ptr>, npsl: seq<nat>, newHashbits: nat, seed: uint64,
                c: map<uint64, Ptr>, p: map<uint64, nat>, count: nat)
    requires Copying(keys, data, psl, contents, pos, size, nkeys, ndata, npsl, newHashbits, seed, c, p, count, |psl|)
    ensures TableOk(nkeys, ndata, npsl, newHashbits, seed, contents, p, size)
  {
    PrefixEnds(keys, data, psl, contents, pos);
  }

  /** A table whose psl slots are all zero represents the empty map. */
  lemma Cleared(keys: seq<uint64>, data: seq<Ptr>, psl: seq<nat>, hashbits: nat, seed: uint64)
    requires hashbits == 0 || INITIAL_HASHBITS <= hashbits <= MAX_HASHBITS
    requires |keys| == |data| == |psl| == Capacity(hashbits)
    requires forall i :: 0 <= i < |psl| ==> psl[i] == 0
    ensures TableOk(keys, data, psl, hashbits, seed, map[], map[], 0)
  {
    NoneLive(psl, 0);
  }
}
