/**
 * `nghttp3_map` (lib/nghttp3_map.c): a Robin Hood open-addressing hash map
 * from 64-bit keys to non-NULL pointers, with backward-shift deletion.
 *
 * The three parallel arrays `keys`, `data` and `psl` are arrays here; the
 * ghost fields `Contents` (the finite map the table represents) and `Pos`
 * (where each key sits) are kept up to date by every method.
 */
module NghttpMap {
  import opened MapHash
  import opened MapTable
  import opened NghttpErr
  import opened NghttpTypes

  class Map {
    var keys: array<uint64>
    var data: array<Ptr>
    var psl: array<nat>
    var hashbits: nat
    var size: nat
    const seed: uint64

    ghost var Contents: map<uint64, Ptr>
    ghost var Pos: map<uint64, nat>

    /** The slot invariant, without the load-factor bound. */
    ghost predicate Table()
      reads this, keys, data, psl
    {
      TableOk(keys[..], data[..], psl[..], hashbits, seed, Contents, Pos, size)
    }

    /** The invariant between two calls: the table is at most 7/8 full. */
    ghost predicate Valid()
      reads this, keys, data, psl
    {
      Table() && size < Threshold(hashbits)
    }

    /** `nghttp3_map_init`: an empty map, nothing allocated yet. */
    constructor (seed: uint64)
      ensures Valid() && fresh(keys) && fresh(data) && fresh(psl)
      ensures this.seed == seed && hashbits == 0 && size == 0 && Contents == map[]
    {
      this.seed := seed;
      keys := new uint64[0];
      data := new Ptr[0];
      psl := new nat[0];
      hashbits := 0;
      size := 0;
      Contents := map[];
      Pos := map[];
    }

    /**
     * The zeroed buffer `map_resize` gets from `nghttp3_mem_calloc`: three
     * fresh arrays of 2^hashbits slots, every psl 0.
     */
    static method NewTable(hashbits: nat, seed: uint64) returns (keys: array<uint64>, data: array<Ptr>, psl: array<nat>)
      requires INITIAL_HASHBITS <= hashbits <= MAX_HASHBITS
      ensures fresh(keys) && fresh(data) && fresh(psl)
      ensures TableOk(keys[..], data[..], psl[..], hashbits, seed, map[], map[], 0)
    {
      var len := Pow2(hashbits);
      keys := new uint64[len](_ => 0);
      data := new Ptr[len](_ => NULL);
      psl := new nat[len](_ => 0);
      Cleared(keys[..], data[..], psl[..], hashbits, seed);
    }

    /** `map_set_entry`: store one entry in slot idx. */
    static method SetEntry(keys: array<uint64>, data: array<Ptr>, psl: array<nat>,
                           idx: nat, key: uint64, d: Ptr, p: nat)
      requires idx < keys.Length && idx < data.Length && idx < psl.Length
      modifies keys, data, psl
      ensures keys[..] == old(keys[..])[idx := key]
      ensures data[..] == old(data[..])[idx := d]
      ensures psl[..] == old(psl[..])[idx := p]
    {
      keys[idx] := key;
      data[idx] := d;
      psl[idx] := p;
    }

    /** Writes one psl slot, as the backward shift does to empty a slot. */
    static method SetPsl(psl: array<nat>, idx: nat, p: nat)
      requires idx < psl.Length
      modifies psl
      ensures psl[..] == old(psl[..])[idx := p]
    {
      psl[idx] := p;
    }

    /** `nghttp3_map_size`. */
    function Size(): (r: nat)
      reads this, keys, data, psl
      requires Valid()
      ensures r == |Contents|
    {
      size
    }

    /**
     * `map_insert`: Robin Hood insertion into a table that has room.  The
     * candidate entry walks forward from its ideal bucket and trades places
     * with every resident that is closer to its own bucket.  A key already
     * present is found before any trade happens.
     */
    method InsertEntry(key: uint64, d: Ptr) returns (rv: int)
      requires Table() && hashbits != 0 && size < psl.Length && d != NULL
      modifies this, keys, data, psl
      ensures Table()
      ensures keys == old(keys) && data == old(data) && psl == old(psl)
      ensures hashbits == old(hashbits)
      ensures rv == 0 || rv == ERR_INVALID_ARGUMENT
      ensures rv == 0 <==> key !in old(Contents)
      ensures rv == 0 ==> Contents == old(Contents)[key := d] && size == old(size) + 1
      ensures rv != 0 ==> Contents == old(Contents) && size == old(size)
      ensures rv != 0 ==> keys[..] == old(keys[..]) && data[..] == old(data[..]) && psl[..] == old(psl[..])
    {
      ghost var c: map<uint64, Ptr>, p: map<uint64, nat>;
      var ks, ds, ps, hb, sz := keys, data, psl, hashbits, size;
      rv, c, p := Probe(ks, ds, ps, hb, seed, Contents, Pos, sz, key, d);
      if rv == 0 {
        size, Contents, Pos := sz + 1, c, p;
      }
    }

    /** The probing loop of `map_insert`, on the slot arrays alone. */
    static method Probe(keys: array<uint64>, data: array<Ptr>, psl: array<nat>, hashbits: nat, seed: uint64,
                        ghost contents: map<uint64, Ptr>, ghost pos: map<uint64, nat>, size: nat,
                        key: uint64, d: Ptr)
      returns (rv: int, ghost c: map<uint64, Ptr>, ghost p: map<uint64, nat>)
      requires TableOk(keys[..], data[..], psl[..], hashbits, seed, contents, pos, size)
      requires hashbits != 0 && size < psl.Length && d != NULL
      modifies keys, data, psl
      ensures rv == 0 || rv == ERR_INVALID_ARGUMENT
      ensures rv == 0 ==> key !in contents && c == contents[key := d]
      ensures rv == 0 ==> TableOk(keys[..], data[..], psl[..], hashbits, seed, c, p, size + 1)
      ensures rv != 0 ==> key in contents
      ensures rv != 0 ==> keys[..] == old(keys[..]) && data[..] == old(data[..]) && psl[..] == old(psl[..])
    {
      var n := psl.Length;
      var idx := MapIndex(key, seed, hashbits);
      var ck: uint64, cd: Ptr, cp: nat := key, d, 1;
      ghost var swapped := false;
      ghost var ks: seq<uint64>, ds: seq<Ptr>, ps: seq<nat> := keys[..], data[..], psl[..];
      c, p := contents, pos;
      ghost var ks0, ds0, ps0 := ks, ds, ps;
      ghost var e := InsertStart(ks, ds, ps, hashbits, seed, c, p, size, key, d);
      while true
        invariant keys[..] == ks && data[..] == ds && psl[..] == ps
        invariant Inserting(ks, ds, ps, hashbits, seed, c, p, size, idx, ck, cd, cp, e, swapped,
                            key, d, ks0, ds0, ps0, contents, pos)
        decreases Dist(idx, e, n)
      {
        var kpsl := psl[idx];
        assert kpsl == ps[idx] && n == |ps|;
        if kpsl == 0 {
          InsertPlace(ks, ds, ps, hashbits, seed, c, p, size, idx, ck, cd, cp, e, swapped,
                      key, d, ks0, ds0, ps0, contents, pos);
          SetEntry(keys, data, psl, idx, ck, cd, cp);
          c, p := c[ck := cd], p[ck := idx];
          return 0, c, p;
        }
        if cp > kpsl {
          InsertSwap(ks, ds, ps, hashbits, seed, c, p, size, idx, ck, cd, cp, e, swapped,
                     key, d, ks0, ds0, ps0, contents, pos);
          var rk, rd := keys[idx], data[idx];
          assert rk == ks[idx] && rd == ds[idx];
          SetEntry(keys, data, psl, idx, ck, cd, cp);
          ks, ds, ps := ks[idx := ck], ds[idx := cd], ps[idx := cp];
          c, p := (c - {rk})[ck := cd], (p - {rk})[ck := idx];
          ck, cd, cp := rk, rd, kpsl;
          swapped := true;
        } else if keys[idx] == ck {
          InsertFound(ks, ds, ps, hashbits, seed, c, p, size, idx, ck, cd, cp, e, swapped,
                      key, d, ks0, ds0, ps0, contents, pos);
          return ERR_INVALID_ARGUMENT, c, p;
        } else {
          InsertSkip(ks, ds, ps, hashbits, seed, c, p, size, idx, ck, cd, cp, e, swapped,
                     key, d, ks0, ds0, ps0, contents, pos);
        }
        cp := cp + 1;
        idx := Next(idx, n);
      }
    }

    /**
     * `nghttp3_map_find`: the data stored under key, or NULL.
     */
    method Find(key: uint64) returns (r: Ptr)
      requires Valid()
      ensures r == if key in Contents then Contents[key] else NULL
    {
      if size == 0 {
        return NULL;
      }
      ThresholdBelowCapacity(hashbits);
      var found, idx := Lookup(keys, data, psl, hashbits, seed, Contents, Pos, size, key);
      if !found {
        return NULL;
      }
      return data[idx];
    }

    /**
     * The probe shared by `nghttp3_map_find` and `nghttp3_map_remove`.  It
     * stops at the first slot whose entry is closer to its own bucket than
     * key would be; the Robin Hood invariant makes that stop sound.
     */
    static method Lookup(keys: array<uint64>, data: array<Ptr>, psl: array<nat>, hashbits: nat, seed: uint64,
                         ghost contents: map<uint64, Ptr>, ghost pos: map<uint64, nat>, ghost size: nat,
                         key: uint64)
      returns (found: bool, idx: nat)
      requires TableOk(keys[..], data[..], psl[..], hashbits, seed, contents, pos, size)
      requires hashbits != 0 && size < psl.Length
      ensures found <==> key in contents
      ensures found ==> idx < psl.Length && pos[key] == idx && data[idx] == contents[key]
    {
      var n := psl.Length;
      idx := MapIndex(key, seed, hashbits);
      var cp: nat := 1;
      ghost var e := ProbeStart(keys[..], data[..], psl[..], hashbits, seed, contents, pos, size, key);
      while true
        invariant Probing(keys[..], data[..], psl[..], hashbits, seed, contents, pos, idx, key, cp, e)
        invariant key in contents ==> Dist(Home(key, seed, hashbits), pos[key], n) >= cp - 1
        decreases Dist(idx, e, n)
      {
        if cp > psl[idx] {
          Absent(keys[..], data[..], psl[..], hashbits, seed, contents, pos, key, idx, cp - 1);
          return false, idx;
        }
        if keys[idx] == key {
          ProbeHit(keys[..], data[..], psl[..], contents, pos, key, idx);
          return true, idx;
        }
        ProbeSkip(keys[..], data[..], psl[..], hashbits, seed, contents, pos, idx, key, cp, e);
        cp := cp + 1;
        idx := Next(idx, n);
      }
    }

    /**
     * `nghttp3_map_remove`: delete key.  Fails with ERR_INVALID_ARGUMENT,
     * changing nothing, when key is absent.
     */
    method Remove(key: uint64) returns (rv: int)
      requires Valid()
      modifies this, keys, data, psl
      ensures Valid()
      ensures keys == old(keys) && data == old(data) && psl == old(psl) && hashbits == old(hashbits)
      ensures rv == 0 || rv == ERR_INVALID_ARGUMENT
      ensures rv == 0 <==> key in old(Contents)
      ensures rv == 0 ==> Contents == old(Contents) - {key} && size == old(size) - 1
      ensures rv != 0 ==> Contents == old(Contents) && size == old(size)
      ensures rv != 0 ==> keys[..] == old(keys[..]) && data[..] == old(data[..]) && psl[..] == old(psl[..])
    {
      if size == 0 {
        return ERR_INVALID_ARGUMENT;
      }
      ThresholdBelowCapacity(hashbits);
      ghost var p: map<uint64, nat>;
      rv, p := RemoveEntry(keys, data, psl, hashbits, seed, Contents, Pos, size, key);
      if rv == 0 {
        size, Contents, Pos := size - 1, Contents - {key}, p;
      }
    }

    /** The body of `nghttp3_map_remove` on the slot arrays. */
    static method RemoveEntry(keys: array<uint64>, data: array<Ptr>, psl: array<nat>, hashbits: nat, seed: uint64,
                              ghost contents: map<uint64, Ptr>, ghost pos: map<uint64, nat>, ghost size: nat,
                              key: uint64)
      returns (rv: int, ghost p: map<uint64, nat>)
      requires TableOk(keys[..], data[..], psl[..], hashbits, seed, contents, pos, size)
      requires hashbits != 0 && size < psl.Length
      modifies keys, data, psl
      ensures rv == 0 || rv == ERR_INVALID_ARGUMENT
      ensures rv == 0 <==> key in contents
      ensures rv == 0 ==> TableOk(keys[..], data[..], psl[..], hashbits, seed, contents - {key}, p, size - 1)
      ensures rv != 0 ==> keys[..] == old(keys[..]) && data[..] == old(data[..]) && psl[..] == old(psl[..])
    {
      var found, idx := Lookup(keys, data, psl, hashbits, seed, contents, pos, size, key);
      if !found {
        return ERR_INVALID_ARGUMENT, pos;
      }
      p := ShiftBack(keys, data, psl, hashbits, seed, contents, pos, size, key, idx);
      return 0, p;
    }

    /**
     * The backward shift of `nghttp3_map_remove` after key was found at
     * slot idx: every following displaced entry moves back one slot, and
     * the slot after the last one moved is emptied.
     */
    static method ShiftBack(keys: array<uint64>, data: array<Ptr>, psl: array<nat>, hashbits: nat, seed: uint64,
                            ghost contents: map<uint64, Ptr>, ghost pos: map<uint64, nat>, ghost size: nat,
                            key: uint64, idx: nat)
      returns (ghost p: map<uint64, nat>)
      requires TableOk(keys[..], data[..], psl[..], hashbits, seed, contents, pos, size)
      requires hashbits != 0 && size < psl.Length && key in contents && pos[key] == idx
      modifies keys, data, psl
      ensures TableOk(keys[..], data[..], psl[..], hashbits, seed, contents - {key}, p, size - 1)
    {
      var n := psl.Length;
      ghost var c := contents - {key};
      p := pos - {key};
      ghost var ks, ds, ps := keys[..], data[..], psl[..];
      ghost var e := ShiftStart(ks, ds, ps, hashbits, seed, contents, pos, size, key);
      var dest := idx;
      var next := Next(idx, n);
      while psl[next] > 1
        invariant keys[..] == ks && data[..] == ds && psl[..] == ps
        invariant Removing(ks, ds, ps, hashbits, seed, c, p, size, dest, e)
        invariant next == Next(dest, n)
        decreases Dist(next, e, n)
      {
        p, ks, ds, ps := MoveBack(keys, data, psl, hashbits, seed, c, p, size, dest, next, e, ks, ds, ps);
        dest := next;
        next := Next(next, n);
      }
      EmptyHole(keys, data, psl, hashbits, seed, c, p, size, dest, e, ks, ds, ps);
    }

    /** The end of the backward shift: the hole left at dest becomes an empty slot. */
    static method EmptyHole(keys: array<uint64>, data: array<Ptr>, psl: array<nat>, hashbits: nat, seed: uint64,
                            ghost contents: map<uint64, Ptr>, ghost pos: map<uint64, nat>, ghost size: nat,
                            dest: nat, ghost e: nat, ghost ks: seq<uint64>, ghost ds: seq<Ptr>, ghost ps: seq<nat>)
      requires keys[..] == ks && data[..] == ds && psl[..] == ps
      requires Removing(ks, ds, ps, hashbits, seed, contents, pos, size, dest, e)
      requires psl[Next(dest, psl.Length)] <= 1
      modifies psl
      ensures TableOk(keys[..], data[..], psl[..], hashbits, seed, contents, pos, size - 1)
    {
      ShiftEnd(ks, ds, ps, hashbits, seed, contents, pos, size, dest, e);
      SetPsl(psl, dest, 0);
    }

    /**
     * One step of the backward shift: the entry at next moves into the hole
     * at dest.  `ks`, `ds` and `ps` are the slot arrays before the step,
     * `ks'`, `ds'` and `ps'` after it.
     */
    static method MoveBack(keys: array<uint64>, data: array<Ptr>, psl: array<nat>, hashbits: nat, seed: uint64,
                           ghost contents: map<uint64, Ptr>, ghost pos: map<uint64, nat>, ghost size: nat,
                           dest: nat, next: nat, ghost e: nat, ghost ks: seq<uint64>, ghost ds: seq<Ptr>, ghost ps: seq<nat>)
      returns (ghost p: map<uint64, nat>, ghost ks': seq<uint64>, ghost ds': seq<Ptr>, ghost ps': seq<nat>)
      requires keys[..] == ks && data[..] == ds && psl[..] == ps
      requires Removing(ks, ds, ps, hashbits, seed, contents, pos, size, dest, e)
      requires next == Next(dest, psl.Length) && psl[next] > 1
      modifies keys, data, psl
      ensures ks' == ks[dest := ks[next]] && ds' == ds[dest := ds[next]] && ps' == ps[dest := ps[next] - 1]
      ensures p == pos[ks[next] := dest]
      ensures keys[..] == ks' && data[..] == ds' && psl[..] == ps'
      ensures Removing(ks[dest := ks[next]], ds[dest := ds[next]], ps[dest := ps[next] - 1],
                       hashbits, seed, contents, pos[ks[next] := dest], size, next, e)
      ensures Dist(Next(next, |ps|), e, |ps|) < Dist(next, e, |ps|)
    {
      ShiftStep(ks, ds, ps, hashbits, seed, contents, pos, size, dest, next, e, ks[next], ds[next], ps[next] - 1);
      var mk, md, kpsl := keys[next], data[next], psl[next];
      assert mk == ks[next] && md == ds[next] && kpsl == ps[next];
      ks', ds', ps' := ks[dest := ks[next]], ds[dest := ds[next]], ps[dest := ps[next] - 1];
      p := pos[ks[next] := dest];
      SetEntry(keys, data, psl, dest, mk, md, kpsl - 1);
    }

    /**
     * `nghttp3_map_each`: call f on the data of every occupied slot in slot
     * order and stop at the first nonzero result, which is returned.
     */
    method Each(f: (Ptr, Ptr) -> int, ptr: Ptr) returns (rv: int)
      requires Valid()
      ensures rv == Visit(data[..], psl[..], f, ptr, 0)
      ensures rv == 0 <==> forall k :: k in Contents ==> f(Contents[k], ptr) == 0
      ensures rv != 0 ==> exists k :: k in Contents && f(Contents[k], ptr) == rv
    {
      VisitContents(keys[..], data[..], psl[..], Contents, Pos, f, ptr);
      if size == 0 {
        return 0;
      }
      var i := 0;
      while i < psl.Length
        invariant 0 <= i <= psl.Length
        invariant Visit(data[..], psl[..], f, ptr, i) == Visit(data[..], psl[..], f, ptr, 0)
      {
        if psl[i] != 0 {
          rv := f(data[i], ptr);
          if rv != 0 {
            return rv;
          }
        }
        i := i + 1;
      }
      return 0;
    }

    /** `nghttp3_map_clear`: forget every entry; the table keeps its size. */
    method Clear()
      requires Valid()
      modifies this, psl
      ensures Valid() && Contents == map[] && size == 0
      ensures keys == old(keys) && data == old(data) && psl == old(psl) && hashbits == old(hashbits)
      ensures keys[..] == old(keys[..]) && data[..] == old(data[..])
    {
      if size == 0 {
        return;
      }
      ZeroPsl(psl);
      Cleared(keys[..], data[..], psl[..], hashbits, seed);
      size, Contents, Pos := 0, map[], map[];
    }

    /** The `memset` of `nghttp3_map_clear`. */
    static method ZeroPsl(psl: array<nat>)
      modifies psl
      ensures forall i :: 0 <= i < psl.Length ==> psl[i] == 0
    {
      forall i | 0 <= i < psl.Length {
        psl[i] := 0;
      }
    }

    /**
     * `map_resize`: move every entry into a fresh table of 2^newHashbits
     * slots.  allocFails stands for `nghttp3_mem_calloc` returning NULL.
     */
    method Resize(newHashbits: nat, allocFails: bool) returns (rv: int)
      requires Valid() && INITIAL_HASHBITS <= newHashbits <= MAX_HASHBITS && size < Threshold(newHashbits)
      modifies this
      ensures Valid()
      ensures rv == 0 || rv == ERR_NOMEM
      ensures rv == ERR_NOMEM <==> allocFails
      ensures Contents == old(Contents) && size == old(size)
      ensures rv == 0 ==> hashbits == newHashbits && fresh(keys) && fresh(data) && fresh(psl)
      ensures rv != 0 ==> keys == old(keys) && data == old(data) && psl == old(psl) && hashbits == old(hashbits)
    {
      if allocFails {
        return ERR_NOMEM;
      }
      var nkeys, ndata, npsl := NewTable(newHashbits, seed);
      ghost var p: map<uint64, nat> := map[];
      if size != 0 {
        p := Rehash(keys, data, psl, hashbits, seed, Contents, Pos, size, nkeys, ndata, npsl, newHashbits);
      }
      keys, data, psl, hashbits, Pos := nkeys, ndata, npsl, newHashbits, p;
      return 0;
    }

    /**
     * The copy loop of `map_resize`: `map_insert` of every occupied old slot
     * into the new table.  No insertion fails, since the keys are distinct.
     */
    static method Rehash(keys: array<uint64>, data: array<Ptr>, psl: array<nat>, hashbits: nat, seed: uint64,
                         ghost contents: map<uint64, Ptr>, ghost pos: map<uint64, nat>, ghost size: nat,
                         nkeys: array<uint64>, ndata: array<Ptr>, npsl: array<nat>, newHashbits: nat)
      returns (ghost p: map<uint64, nat>)
      requires TableOk(keys[..], data[..], psl[..], hashbits, seed, contents, pos, size)
      requires TableOk(nkeys[..], ndata[..], npsl[..], newHashbits, seed, map[], map[], 0)
      requires newHashbits != 0 && size < Pow2(newHashbits)
      requires nkeys != keys && ndata != data && npsl != psl
      modifies nkeys, ndata, npsl
      ensures TableOk(nkeys[..], ndata[..], npsl[..], newHashbits, seed, contents, p, size)
    {
      CopyStart(keys[..], data[..], psl[..], hashbits, seed, contents, pos, size, nkeys[..], ndata[..], npsl[..], newHashbits);
      p := CopySlots(keys, data, psl, seed, contents, pos, size, nkeys, ndata, npsl, newHashbits);
    }

    /** The loop itself, from an empty new table to one holding every old entry. */
    static method CopySlots(keys: array<uint64>, data: array<Ptr>, psl: array<nat>, seed: uint64,
                            ghost contents: map<uint64, Ptr>, ghost pos: map<uint64, nat>, ghost size: nat,
                            nkeys: array<uint64>, ndata: array<Ptr>, npsl: array<nat>, newHashbits: nat)
      returns (ghost p: map<uint64, nat>)
      requires Copying(keys[..], data[..], psl[..], contents, pos, size,
                       nkeys[..], ndata[..], npsl[..], newHashbits, seed, map[], map[], 0, 0)
      requires nkeys != keys && ndata != data && npsl != psl
      modifies nkeys, ndata, npsl
      ensures TableOk(nkeys[..], ndata[..], npsl[..], newHashbits, seed, contents, p, size)
    {
      ghost var c: map<uint64, Ptr> := map[];
      p := map[];
      var count: nat := 0;
      for i := 0 to psl.Length
        invariant Copying(keys[..], data[..], psl[..], contents, pos, size,
                          nkeys[..], ndata[..], npsl[..], newHashbits, seed, c, p, count, i)
      {
        c, p, count := CopySlot(keys, data, psl, contents, pos, size, nkeys, ndata, npsl, newHashbits, seed, c, p, count, i);
      }
      CopyEnd(keys[..], data[..], psl[..], contents, pos, size, nkeys[..], ndata[..], npsl[..], newHashbits, seed, c, p, count);
    }

    /** One iteration of the copy loop of `map_resize`: slot i of the old table. */
    static method CopySlot(keys: array<uint64>, data: array<Ptr>, psl: array<nat>,
                           ghost contents: map<uint64, Ptr>, ghost pos: map<uint64, nat>, ghost size: nat,
                           nkeys: array<uint64>, ndata: array<Ptr>, npsl: array<nat>, newHashbits: nat, seed: uint64,
                           ghost c: map<uint64, Ptr>, ghost p: map<uint64, nat>, count: nat, i: nat)
      returns (ghost c': map<uint64, Ptr>, ghost p': map<uint64, nat>, count': nat)
      requires Copying(keys[..], data[..], psl[..], contents, pos, size,
                       nkeys[..], ndata[..], npsl[..], newHashbits, seed, c, p, count, i)
      requires i < psl.Length && nkeys != keys && ndata != data && npsl != psl
      modifies nkeys, ndata, npsl
      ensures Copying(keys[..], data[..], psl[..], contents, pos, size,
                      nkeys[..], ndata[..], npsl[..], newHashbits, seed, c', p', count', i + 1)
    {
      PrefixStep(keys[..], data[..], psl[..], contents, pos, i);
      if psl[i] == 0 {
        return c, p, count;
      }
      SubsetNotLarger(c.Keys, contents.Keys);
      var rv;
      rv, c', p' := Probe(nkeys, ndata, npsl, newHashbits, seed, c, p, count, keys[i], data[i]);
      assert 0 == rv;
      count' := count + 1;
    }

    /**
     * `nghttp3_map_insert`: grow the table first when the insertion would
     * reach the 7/8 load factor, then insert.  Fails with ERR_NOMEM when the
     * table cannot grow, and with ERR_INVALID_ARGUMENT when key is present.
     */
    method Insert(key: uint64, d: Ptr, allocFails: bool) returns (rv: int)
      requires Valid() && d != NULL
      modifies this, keys, data, psl
      ensures Valid()
      ensures rv == 0 || rv == ERR_INVALID_ARGUMENT || rv == ERR_NOMEM
      ensures rv == ERR_NOMEM <==>
                old(size) + 1 >= Threshold(old(hashbits)) && (NewHashbits(old(hashbits)) > MAX_HASHBITS || allocFails)
      ensures rv == ERR_INVALID_ARGUMENT <==> rv != ERR_NOMEM && key in old(Contents)
      ensures rv == 0 ==> Contents == old(Contents)[key := d] && size == old(size) + 1
      ensures rv != 0 ==> Contents == old(Contents) && size == old(size)
      ensures rv != ERR_NOMEM ==>
                hashbits == if old(size) + 1 >= Threshold(old(hashbits)) then NewHashbits(old(hashbits)) else old(hashbits)
      ensures rv == ERR_NOMEM ==> hashbits == old(hashbits) && keys == old(keys) && data == old(data) && psl == old(psl)
      ensures rv == ERR_NOMEM ==> keys[..] == old(keys[..]) && data[..] == old(data[..]) && psl[..] == old(psl[..])
    {
      if size + 1 >= Threshold(hashbits) {
        rv := Grow(allocFails);
        if rv != 0 {
          return rv;
        }
      }
      ThresholdBelowCapacity(hashbits);
      rv := InsertEntry(key, d);
    }

    /**
     * The growth step of `nghttp3_map_insert` once an insertion would reach
     * the load factor: ERR_NOMEM when hashbits cannot grow or the allocation
     * fails, otherwise a table of NewHashbits(hashbits) with room for one more.
     */
    method Grow(allocFails: bool) returns (rv: int)
      requires Valid() && size + 1 >= Threshold(hashbits)
      modifies this
      ensures Valid() && Contents == old(Contents) && size == old(size)
      ensures rv == 0 || rv == ERR_NOMEM
      ensures rv == ERR_NOMEM <==> NewHashbits(old(hashbits)) > MAX_HASHBITS || allocFails
      ensures rv == 0 ==> hashbits == NewHashbits(old(hashbits)) && size + 1 < Threshold(hashbits)
      ensures rv == 0 ==> fresh(keys) && fresh(data) && fresh(psl)
      ensures rv != 0 ==> hashbits == old(hashbits) && keys == old(keys) && data == old(data) && psl == old(psl)
    {
      var newHashbits := NewHashbits(hashbits);
      if newHashbits > MAX_HASHBITS {
        return ERR_NOMEM;
      }
      ThresholdGrows(hashbits);
      rv := Resize(newHashbits, allocFails);
    }
  }
}
