/**
 * The golden memory checker on in-order runs: per-core reorder buffers over one lazily
 * filled byte memory. Whatever is buffered and whatever has been fetched, a load computes the
 * bytes of the last earlier stores of any core, else those memory began with.
 */
module GoldCheck {
  import opened GoldData

  /** A store that has been performed. */
  datatype Write = Write(addr: nat, bytes: seq<nat>)

  /** The byte at a after the writes of the log, on a memory that began as init. */
  function ByteAfter(init: nat -> nat, log: seq<Write>, a: nat): nat {
    if log == [] then init(a)
    else
      var w := log[|log| - 1];
      if w.addr <= a < w.addr + |w.bytes| then w.bytes[a - w.addr] else ByteAfter(init, log[..|log| - 1], a)
  }

  predicate Covers(w: Write, a: nat) { w.addr <= a < w.addr + |w.bytes| }

  /** A byte is that of the last write over it, of which k counts those up to it; without one it is as it was. */
  lemma {:induction false} LastWriteWins(init: nat -> nat, log: seq<Write>, a: nat, k: nat)
    requires k <= |log| && forall i :: k <= i < |log| ==> !Covers(log[i], a)
    requires k > 0 ==> Covers(log[k - 1], a)
    ensures ByteAfter(init, log, a) == if k > 0 then log[k - 1].bytes[a - log[k - 1].addr] else init(a)
    decreases |log|
  {
    if k < |log| {
      assert !Covers(log[|log| - 1], a);
      LastWriteWins(init, log[..|log| - 1], a, k);
    }
  }

  function BytesAfter(init: nat -> nat, log: seq<Write>, addr: nat, n: nat): (s: seq<nat>)
    ensures |s| == n
  {
    seq<nat>(n, i requires 0 <= i < n => ByteAfter(init, log, addr + i))
  }

  datatype RobEntry = RobEntry(rid: nat, ld: Data, st: Data, performed: bool)

  /** Newest first; only performed loads wait, with strictly falling ids. */
  predicate LoadsOnly(rob: seq<RobEntry>, newest: nat) {
    && (forall i :: 0 <= i < |rob| ==> !rob[i].st.HasData() && rob[i].performed && rob[i].rid <= newest)
    && (forall i, j :: 0 <= i < j < |rob| ==> rob[i].rid > rob[j].rid)
  }

  class Checker {
    const init: nat -> nat
    var memByte: map<nat, nat>
    var robs: seq<seq<RobEntry>>
    var globalInstid: nat

    // the stores performed so far, of all cores
    ghost var log: seq<Write>

    ghost predicate MemoryRight()
      reads this
    {
      && (forall a :: a in memByte ==> memByte[a] == ByteAfter(init, log, a))
      && (forall a: nat :: a !in memByte ==> ByteAfter(init, log, a) == init(a))
    }

    ghost predicate Valid()
      reads this
    {
      MemoryRight() && forall c :: 0 <= c < |robs| ==> LoadsOnly(robs[c], globalInstid)
    }

    constructor (init: nat -> nat, ncores: nat)
      ensures Valid() && log == [] && |robs| == ncores && this.init == init
      ensures forall c :: 0 <= c < ncores ==> robs[c] == []
    {
      this.init := init;
      memByte, globalInstid := map[], 0;
      robs := seq(ncores, _ => []);
      log := [];
    }

    /** inorder: the next id, for a new entry at the front. */
    method InOrder(cid: nat) returns (rid: nat)
      requires cid < |robs|
      modifies this`robs, this`globalInstid
      ensures rid == globalInstid == old(globalInstid) + 1
      ensures robs == old(robs)[cid := [RobEntry(rid, Empty, Empty, false)] + old(robs[cid])]
    {
      globalInstid := globalInstid + 1;
      rid := globalInstid;
      robs := robs[cid := [RobEntry(rid, Empty, Empty, false)] + robs[cid]];
    }

    /** Gold_mem::ld_perform: reads every byte, fetching the ones memory has not seen. */
    method MemLdPerform(d: Data) returns (r: Data)
      requires MemoryRight() && |d.chunks| == 1
      modifies this`memByte
      ensures MemoryRight()
      ensures r == d.(chunks := [Chunk(d.chunks[0].addr, BytesAfter(init, log, d.chunks[0].addr, |d.chunks[0].data|))])
    {
      hide ByteAfter;
      r := d;
      var addr, n := d.chunks[0].addr, |d.chunks[0].data|;
      var pos := 0;
      while pos < n
        modifies this`memByte
        invariant pos <= n && MemoryRight()
        invariant r.device == d.device && |r.chunks| == 1 && r.chunks[0].addr == addr && |r.chunks[0].data| == n
        invariant forall i :: 0 <= i < pos ==> r.chunks[0].data[i] == ByteAfter(init, log, addr + i)
      {
        var a := addr + pos;
        assert r.chunks[0].IsHit(a);
        if a !in memByte {
          var b := init(a);
          memByte := memByte[a := b];
          r := SetByte(r, a, b);
        } else {
          r := SetByte(r, a, memByte[a]);
        }
        pos := pos + 1;
      }
      assert r.chunks[0].data == BytesAfter(init, log, addr, n);
    }

    /** Gold_mem::st_perform */
    method MemStPerform(d: Data)
      requires MemoryRight() && |d.chunks| == 1
      modifies this`memByte, this`log
      ensures MemoryRight() && log == old(log) + [Write(d.chunks[0].addr, d.chunks[0].data)]
    {
      var addr, data := d.chunks[0].addr, d.chunks[0].data;
      var pos := 0;
      while pos < |data|
        modifies this`memByte
        invariant pos <= |data|
        invariant forall a: nat :: a in memByte <==> a in old(memByte) || addr <= a < addr + pos
        invariant forall a :: a in memByte ==>
                    memByte[a] == if addr <= a < addr + pos then data[a - addr] else old(memByte)[a]
      {
        memByte := memByte[addr + pos := data[pos]];
        pos := pos + 1;
      }
      WriteNext(init, log, Write(addr, data));
      log := log + [Write(addr, data)];
    }

    /**
     * Gold_core::ld_perform of the newest entry. It would forward from older stores, but in
     * order no older entry holds a store.
     */
    method LdPerform(cid: nat, rid: nat) returns (ld: Data)
      requires MemoryRight() && cid < |robs| && |robs[cid]| > 0 && robs[cid][0].rid == rid
      requires LoadsOnly(robs[cid][1..], rid) && |robs[cid][0].ld.chunks| == 1
      requires forall i :: 1 <= i < |robs[cid]| ==> robs[cid][i].rid < rid
      modifies this`memByte, this`robs
      ensures MemoryRight()
      ensures var c := old(robs[cid][0]).ld.chunks[0];
              ld == old(robs[cid][0]).ld.(chunks := [Chunk(c.addr, BytesAfter(init, log, c.addr, |c.data|))])
      ensures robs == old(robs)[cid := [old(robs[cid][0]).(ld := ld, performed := true)] + old(robs[cid][1..])]
    {
      hide ByteAfter, BytesAfter, LoadsOnly;
      ghost var tail := robs[cid][1..];
      ld := MemLdPerform(robs[cid][0].ld);
      if robs[cid][|robs[cid]| - 1].rid != rid {
        var it := |robs[cid]| - 1;
        while robs[cid][it].rid != rid
          modifies {}
          invariant 0 <= it < |robs[cid]|
          decreases it
        {
          NoStore(tail, rid, it - 1);
          assert robs[cid][it] == tail[it - 1];
          assert !robs[cid][it].st.HasData();
          it := it - 1;
        }
      }
      robs := robs[cid := [robs[cid][0].(ld := ld, performed := true)] + robs[cid][1..]];
    }

    lemma NoStore(rob: seq<RobEntry>, newest: nat, i: int)
      requires LoadsOnly(rob, newest)
      ensures 0 <= i < |rob| ==> !rob[i].st.HasData()
    {
    }

    /** Gold_core::st_globally_perform of the newest entry: performs it and retires all entries. */
    method StGloballyPerform(cid: nat, rid: nat)
      requires MemoryRight() && cid < |robs| && |robs[cid]| > 0 && robs[cid][0].rid == rid
      requires LoadsOnly(robs[cid][1..], rid) && |robs[cid][0].st.chunks| == 1
      requires forall i :: 1 <= i < |robs[cid]| ==> robs[cid][i].rid < rid
      modifies this`memByte, this`log, this`robs
      ensures MemoryRight() && robs == old(robs)[cid := []]
      ensures var c := old(robs[cid][0]).st.chunks[0]; log == old(log) + [Write(c.addr, c.data)]
    {
      hide ByteAfter, LoadsOnly;
      ghost var tail := robs[cid][1..];
      var onlyReads := true;
      var it := 1;
      while it < |robs[cid]|
        modifies {}
        invariant 1 <= it <= |robs[cid]| && onlyReads
      {
        NoStore(tail, rid, it - 1);
        assert robs[cid][it] == tail[it - 1];
        if robs[cid][it].st.HasData() {
          onlyReads := false;
        }
        it := it + 1;
      }
      robs := robs[cid := robs[cid][0 := robs[cid][0].(performed := true)]];
      MemStPerform(robs[cid][0].st);
      if onlyReads {
        while robs[cid][|robs[cid]| - 1].rid != rid
          modifies this`robs
          invariant |robs| == |old(robs)| && robs == old(robs)[cid := robs[cid]]
          invariant |robs[cid]| > 0 && robs[cid][0].rid == rid
          invariant forall i :: 1 <= i < |robs[cid]| ==> robs[cid][i].rid < rid
          decreases |robs[cid]|
        {
          robs := robs[cid := robs[cid][..|robs[cid]| - 1]];
        }
        robs := robs[cid := robs[cid][..|robs[cid]| - 1]];
      }
      // with an older store in the buffer, only this entry would go
    }

    lemma Entered(rob: seq<RobEntry>, newest: nat, rid: nat)
      requires LoadsOnly(rob, newest) && rid == newest + 1
      ensures LoadsOnly(rob, rid) && forall i :: 0 <= i < |rob| ==> rob[i].rid < rid
    {
    }

    lemma Buffered(rob: seq<RobEntry>, e: RobEntry)
      requires LoadsOnly(rob, e.rid) && (forall i :: 0 <= i < |rob| ==> rob[i].rid < e.rid)
      requires !e.st.HasData() && e.performed
      ensures LoadsOnly([e] + rob, e.rid)
    {
    }

    lemma StillBuffered(rob: seq<RobEntry>, newest: nat, newest': nat)
      requires LoadsOnly(rob, newest) && newest <= newest'
      ensures LoadsOnly(rob, newest')
    {
    }

    /** check_inorder_load: what the golden memory says, and whether the device disagrees. */
    method CheckLoad(cid: nat, addr: nat, sz: nat, rdData: nat, ioMap: bool) returns (value: nat, fail: bool)
      requires Valid() && cid < |robs| && sz > 0
      modifies this`memByte, this`robs, this`globalInstid
      ensures Valid() && |robs| == |old(robs)|
      ensures value == ValueOf(BytesAfter(init, log, addr, sz))
      ensures fail <==> !ioMap && value != rdData
    {
      hide ByteAfter, BytesAfter, LoadsOnly;
      ghost var older, before := robs[cid], globalInstid;
      ghost var all := robs;
      var rid := InOrder(cid);
      Entered(older, before, rid);
      var d := AddRange(addr, sz, 0);
      if ioMap {
        d := d.(device := true);
      }
      robs := robs[cid := [robs[cid][0].(ld := d)] + robs[cid][1..]];
      assert robs[cid][1..] == older;
      var ld := LdPerform(cid, rid);
      value := GetData(ld, addr, sz);
      fail := !ioMap && value != rdData;
      Buffered(older, robs[cid][0]);
      assert robs[cid] == [robs[cid][0]] + older;
      forall c | 0 <= c < |robs| && c != cid ensures LoadsOnly(robs[c], globalInstid) {
        StillBuffered(all[c], before, rid);
      }
    }

    /** check_inorder_store */
    method CheckStore(cid: nat, addr: nat, sz: nat, stData: nat, ioMap: bool)
      requires Valid() && cid < |robs| && sz > 0
      modifies this`memByte, this`robs, this`globalInstid, this`log
      ensures Valid() && |robs| == |old(robs)| && robs[cid] == []
      ensures log == old(log) + [Write(addr, BytesOf(stData, sz))]
    {
      hide ByteAfter, BytesAfter, LoadsOnly, BytesOf;
      ghost var older, before := robs[cid], globalInstid;
      ghost var all := robs;
      var rid := InOrder(cid);
      Entered(older, before, rid);
      var d := AddRange(addr, sz, 0);
      d := SetData(d, addr, sz, stData);
      if ioMap {
        d := d.(device := true);
      }
      robs := robs[cid := [robs[cid][0].(st := d)] + robs[cid][1..]];
      assert robs[cid][1..] == older;
      StGloballyPerform(cid, rid);
      NoneBuffered(globalInstid);
      forall c | 0 <= c < |robs| && c != cid ensures LoadsOnly(robs[c], globalInstid) {
        StillBuffered(all[c], before, rid);
      }
    }

    lemma NoneBuffered(newest: nat)
      ensures LoadsOnly([], newest)
    {
    }

    /** check_inorder_amo: loads the old value, then stores; a mismatch ends the run before the store. */
    method CheckAmo(cid: nat, addr: nat, sz: nat, stData: nat, rdData: nat, ioMap: bool) returns (value: nat, fail: bool)
      requires Valid() && cid < |robs| && sz > 0
      modifies this`memByte, this`robs, this`globalInstid, this`log
      ensures value == ValueOf(BytesAfter(init, old(log), addr, sz))
      ensures fail <==> !ioMap && value != rdData
      ensures !fail ==> Valid() && |robs| == |old(robs)| && robs[cid] == []
      ensures log == if fail then old(log) else old(log) + [Write(addr, BytesOf(stData, sz))]
    {
      hide ByteAfter, BytesAfter, LoadsOnly, BytesOf;
      ghost var older, before := robs[cid], globalInstid;
      ghost var all := robs;
      var rid := InOrder(cid);
      Entered(older, before, rid);
      var st := AddRange(addr, sz, 0);
      st := SetData(st, addr, sz, stData);
      var ld := AddRange(addr, sz, 0);
      if ioMap {
        st, ld := st.(device := true), ld.(device := true);
      }
      robs := robs[cid := [robs[cid][0].(st := st, ld := ld)] + robs[cid][1..]];
      assert robs[cid][1..] == older;
      ld := LdPerform(cid, rid);
      value := GetData(ld, addr, sz);
      fail := !ioMap && value != rdData;
      if fail {
        return;
      }
      assert robs[cid][1..] == older;
      StGloballyPerform(cid, rid);
      NoneBuffered(globalInstid);
      forall c | 0 <= c < |robs| && c != cid ensures LoadsOnly(robs[c], globalInstid) {
        StillBuffered(all[c], before, rid);
      }
    }
  }

  lemma WriteNext(init: nat -> nat, log: seq<Write>, w: Write)
    ensures forall a: nat :: ByteAfter(init, log + [w], a)
              == if w.addr <= a < w.addr + |w.bytes| then w.bytes[a - w.addr] else ByteAfter(init, log, a)
  {
    assert (log + [w])[..|log|] == log;
  }

  // ---- Whole runs ----

  datatype Event =
    | Load(cid: nat, addr: nat, sz: nat, rdData: nat, ioMap: bool)
    | Store(cid: nat, addr: nat, sz: nat, stData: nat, ioMap: bool)
    | Amo(cid: nat, addr: nat, sz: nat, stData: nat, rdData: nat, ioMap: bool)

  /** The stores of the first events, in call order, whatever core made them. */
  function Stores(es: seq<Event>): seq<Write> {
    if es == [] then []
    else
      var e := es[|es| - 1];
      Stores(es[..|es| - 1]) + if e.Load? then [] else [Write(e.addr, BytesOf(e.stData, e.sz))]
  }

  /** What event k should read from a flat memory. */
  function Expected(init: nat -> nat, es: seq<Event>, k: nat): nat
    requires k < |es|
  {
    ValueOf(BytesAfter(init, Stores(es[..k]), es[k].addr, es[k].sz))
  }

  predicate Agrees(init: nat -> nat, es: seq<Event>, k: nat)
    requires k < |es|
  {
    es[k].Store? || es[k].ioMap || es[k].rdData == Expected(init, es, k)
  }

  /**
   * The checker refines a flat memory: it passes a run exactly when every load and atomic
   * operation of the device, outside devices' own address space, read what the last earlier
   * stores left in flat memory; and it stops at the first that did not.
   */
  method Run(init: nat -> nat, ncores: nat, es: seq<Event>) returns (passed: bool, at: nat)
    requires forall k :: 0 <= k < |es| ==> es[k].cid < ncores && es[k].sz > 0
    ensures passed <==> forall k :: 0 <= k < |es| ==> Agrees(init, es, k)
    ensures !passed ==> at < |es| && !Agrees(init, es, at) && forall k :: 0 <= k < at ==> Agrees(init, es, k)
  {
    hide Checker.Valid, BytesOf, BytesAfter, ValueOf;
    var c := new Checker(init, ncores);
    at := 0;
    while at < |es|
      invariant at <= |es| && fresh(c) && c.Valid() && |c.robs| == ncores && c.init == init
      invariant c.log == Stores(es[..at])
      invariant forall k :: 0 <= k < at ==> Agrees(init, es, k)
    {
      StoresNext(es, at);
      var fail := false;
      match es[at] {
        case Load(cid, addr, sz, rdData, ioMap) =>
          var value;
          value, fail := c.CheckLoad(cid, addr, sz, rdData, ioMap);
        case Store(cid, addr, sz, stData, ioMap) =>
          c.CheckStore(cid, addr, sz, stData, ioMap);
        case Amo(cid, addr, sz, stData, rdData, ioMap) =>
          var value;
          value, fail := c.CheckAmo(cid, addr, sz, stData, rdData, ioMap);
      }
      if fail {
        assert !Agrees(init, es, at);
        return false, at;
      }
      at := at + 1;
    }
    passed := true;
  }

  lemma StoresNext(es: seq<Event>, k: nat)
    requires k < |es|
    ensures Stores(es[..k + 1]) == Stores(es[..k]) + if es[k].Load? then [] else [Write(es[k].addr, BytesOf(es[k].stData, es[k].sz))]
  {
    assert es[..k + 1][..k] == es[..k];
  }
}
