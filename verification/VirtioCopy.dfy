/**
 * The scatter/gather copies between a device buffer and a descriptor chain: they act on the
 * bytes of a run as if they stood in one row, across page splits and empty descriptors.
 */
module VirtioCopy {
  import opened GuestMemory
  import opened DescriptorChains

  class Copier {
    const guest: Guest
    const table: nat
    const size: nat

    constructor (guest: Guest, table: nat, size: nat)
      ensures this.guest == guest && this.table == table && this.size == size
    {
      this.guest, this.table, this.size := guest, table, size;
    }

    ghost predicate Serves(head: nat, chain: seq<Desc>)
      reads guest.ram
    {
      guest.Valid() && Linked(guest.Mem(), table, size, head, chain) && Apart(guest.Mem(), table, size, chain)
    }

    method GetDesc(i: nat, ghost d: Desc) returns (r: Desc)
      requires guest.Valid() && Entry(guest.Mem(), table, size, i, d)
      ensures r == d
    {
      hide DescOf;
      var buf := new nat[DescSize];
      var ret := guest.MemcpyFromRam(buf, 0, table + DescSize * i, DescSize);
      assert buf[0..DescSize] == buf[..];
      r := DescOf(buf[..]);
    }

    /** The descriptor that follows position k of the chain. */
    method Follow(d: Desc, ghost head: nat, ghost chain: seq<Desc>, ghost k: nat) returns (r: Desc)
      requires guest.Valid() && Linked(guest.Mem(), table, size, head, chain)
      requires k < |chain| && d == chain[k] && HasNext(d)
      ensures k + 1 < |chain| && r == chain[k + 1]
    {
      hide Entry, DescOf, HasNext;
      LinkedAt(guest.Mem(), table, size, head, chain, k);
      LinkedAt(guest.Mem(), table, size, head, chain, k + 1);
      r := GetDesc(d.next, chain[k + 1]);
    }

    /** Skips to the first writable descriptor. */
    method FirstWrite(d0: Desc, ghost head: nat, ghost chain: seq<Desc>) returns (found: bool, d: Desc, ghost j: nat)
      requires guest.Valid() && Linked(guest.Mem(), table, size, head, chain) && d0 == chain[0]
      ensures found <==> SkipReadable(chain) != []
      ensures found ==> d == SkipReadable(chain)[0]
      ensures j <= |chain| && SkipReadable(chain) == chain[j..]
    {
      hide Entry, IsWrite, HasNext, DescOf;
      d, j := d0, 0;
      while true
        invariant j < |chain| && d == chain[j] && forall k :: 0 <= k < j ==> !IsWrite(chain[k])
        decreases |chain| - j
      {
        LinkedAt(guest.Mem(), table, size, head, chain, j);
        if IsWrite(d) {
          SkipTo(chain, j);
          found := true;
          return;
        }
        if !HasNext(d) {
          SkipTo(chain, j + 1);
          found, j := false, j + 1;
          return;
        }
        d := Follow(d, head, chain, j);
        j := j + 1;
      }
    }

    /** Finds the descriptor of the run that holds byte offset, if the run is that long. */
    method FindOffset(d0: Desc, offset: nat, w: bool, ghost head: nat, ghost chain: seq<Desc>, ghost j: nat)
      returns (found: bool, d: Desc, off: nat, ghost k: nat)
      requires guest.Valid() && Linked(guest.Mem(), table, size, head, chain)
      requires j < |chain| && d0 == chain[j]
      ensures found <==> offset < |Addrs(Prefix(chain[j..], w))|
      ensures found ==>
                && k < |Prefix(chain[j..], w)| && d == chain[j + k] && off < d.len
                && Pos(Prefix(chain[j..], w), k) + off == offset
    {
      hide Entry, IsWrite, HasNext, DescOf, Prefix, Addrs;
      ghost var rest := chain[j..];
      ghost var run := Prefix(rest, w);
      PrefixShape(rest, w);
      d, off, k := d0, offset, 0;
      PosEnd(run);
      while true
        invariant k < |rest| && d == rest[k] && forall i :: 0 <= i < k ==> IsWrite(rest[i]) == w
        invariant k <= |run| && off + Pos(run, k) == offset
        decreases |rest| - k
      {
        LinkedAt(guest.Mem(), table, size, head, chain, j + k);
        if IsWrite(d) != w {
          PrefixTo(rest, w, k);
          return false, d, off, k;
        }
        PrefixTo(rest, w, k + 1);
        PosStep(run, k);
        if off < d.len {
          return true, d, off, k;
        }
        if !HasNext(d) {
          return false, d, off, k;
        }
        off := off - d.len;
        d := Follow(d, head, chain, j + k);
        k := k + 1;
      }
    }

    /** Stores l bytes into one descriptor of the writable run. */
    method PutPiece(d: Desc, off: nat, buf: array<nat>, done: nat, l: nat, ghost head: nat, ghost chain: seq<Desc>,
                    ghost j: nat, ghost run: seq<Desc>, ghost k: nat, ghost start: nat, ghost m0: Flat)
      requires guest.Valid() && Serves(head, chain) && buf != guest.ram && done + l <= buf.Length
      requires j + k < |chain| && chain[j + k] == d && IsWrite(d)
      requires k < |run| && d == run[k] && off + l <= d.len && At(run, k, off, start + done)
      requires Sent(m0, guest.Mem(), run, start, done, buf[..])
      modifies guest.ram
      ensures Serves(head, chain) && Sent(m0, guest.Mem(), run, start, done + l, buf[..])
    {
      hide *;
      ServesIs(head, chain);
      ghost var m := guest.Mem();
      BufferApart(m, table, size, chain, j + k, off, l);
      ChainStands(m, table, size, head, chain, j + k, off, buf[done..done + l]);
      SentFurther(m0, m, run, k, off, l, start, done, buf[..]);
      ghost var data := buf[..];
      assert data[done..done + l] == buf[done..done + l];
      var _ := guest.MemcpyToRam(d.addr + off, buf, done, l);
      assert buf[..] == data;
      ServesIs(head, chain);
    }

    lemma ServesIs(head: nat, chain: seq<Desc>)
      requires guest.Valid()
      ensures Serves(head, chain) <==> Linked(guest.Mem(), table, size, head, chain) && Apart(guest.Mem(), table, size, chain)
    {
    }

    /** The descriptor at position k of a run of chain[j..]. */
    lemma InRun(chain: seq<Desc>, j: nat, w: bool, k: nat)
      requires j <= |chain| && k < |Prefix(chain[j..], w)|
      ensures j + k < |chain| && chain[j + k] == Prefix(chain[j..], w)[k] && IsWrite(chain[j + k]) == w
      ensures k + 1 < |Prefix(chain[j..], w)| <==> j + k + 1 < |chain| && IsWrite(chain[j + k + 1]) == w
    {
      hide IsWrite;
      PrefixShape(chain[j..], w);
      PrefixTo(chain[j..], w, k + 1);
      if j + k + 1 < |chain| && IsWrite(chain[j + k + 1]) == w {
        PrefixTo(chain[j..], w, k + 2);
      }
    }

    /** Copies on from descriptor k0 of the writable run until count bytes are sent or the run ends. */
    method CopyTo(d0: Desc, off0: nat, buf: array<nat>, count: nat, ghost head: nat, ghost chain: seq<Desc>,
                  ghost j: nat, ghost run: seq<Desc>, ghost k0: nat, ghost start: nat) returns (ret: int, ghost n: nat)
      requires guest.Valid() && Serves(head, chain) && buf != guest.ram && 0 < count <= buf.Length
      requires j <= |chain| && run == Prefix(chain[j..], true) && k0 < |run| && d0 == run[k0] && At(run, k0, off0, start)
      modifies guest.ram
      ensures Sent(old(guest.Mem()), guest.Mem(), run, start, n, buf[..])
      ensures if ret == 0 then n == count else ret == -1 && n < count && start + n == |Addrs(run)|
    {
      hide *;
      ghost var m0, data, k := guest.Mem(), buf[..], k0;
      var d, off: nat, left: nat := d0, off0, count;
      InRun(chain, j, true, k);
      AtIs(run, k, off, start);
      AtWithin(run, k, off, start, 0);
      SentNothing(m0, run, start, data);
      while true
        invariant Serves(head, chain) && 0 < left <= count && buf[..] == data
        invariant k < |run| && d == run[k] && off <= d.len && At(run, k, off, start + (count - left))
        invariant Sent(m0, guest.Mem(), run, start, count - left, data)
        decreases |run| - k
      {
        var l := if left < d.len - off then left else d.len - off;
        var done := count - left;
        InRun(chain, j, true, k);
        AtWithin(run, k, off, start + done, l);
        PutPiece(d, off, buf, done, l, head, chain, j, run, k, start, m0);
        assert buf[..] == data;
        left, off := left - l, off + l;
        n := count - left;
        if left == 0 {
          return 0, n;
        }
        if off == d.len {
          ServesIs(head, chain);
          LinkedAt(guest.Mem(), table, size, head, chain, j + k);
          AtNext(run, k, start + n);
          if !HasNext(d) {
            return -1, n;
          }
          d := Follow(d, head, chain, j + k);
          if !IsWrite(d) {
            return -1, n;
          }
          k := k + 1;
          InRun(chain, j, true, k);
          off := 0;
        }
      }
    }

    lemma AtIs(run: seq<Desc>, k: nat, off: nat, p: nat)
      ensures At(run, k, off, p) <==> k < |run| && off <= run[k].len && Pos(run, k) + off == p
    {
    }

    /** Copies on from descriptor k0 of the readable run until count bytes have come or the run ends. */
    method CopyFrom(d0: Desc, off0: nat, buf: array<nat>, count: nat, ghost head: nat, ghost chain: seq<Desc>,
                    ghost j: nat, ghost run: seq<Desc>, ghost k0: nat, ghost start: nat) returns (ret: int, ghost n: nat)
      requires guest.Valid() && Serves(head, chain) && buf != guest.ram && 0 < count <= buf.Length
      requires j <= |chain| && run == Prefix(chain[j..], false) && k0 < |run| && d0 == run[k0] && At(run, k0, off0, start)
      modifies buf
      ensures Received(guest.Mem(), run, start, n, buf[..]) && buf[n..] == old(buf[n..])
      ensures if ret == 0 then n == count else ret == -1 && n < count && start + n == |Addrs(run)|
    {
      hide *;
      ghost var m, was, k := guest.Mem(), buf[..], k0;
      var d, off: nat, left: nat := d0, off0, count;
      ServesIs(head, chain);
      InRun(chain, j, false, k);
      AtIs(run, k, off, start);
      AtWithin(run, k, off, start, 0);
      RunInRam(m, chain, j, run);
      ReceivedNothing(m, run, start, was);
      while true
        invariant guest.Mem() == m && 0 < left <= count
        invariant k < |run| && d == run[k] && off <= d.len && At(run, k, off, start + (count - left))
        invariant Received(m, run, start, count - left, buf[..]) && buf[count - left..] == was[count - left..]
        decreases |run| - k
      {
        var l := if left < d.len - off then left else d.len - off;
        var done := count - left;
        InRun(chain, j, false, k);
        AtWithin(run, k, off, start + done, l);
        BufferApart(m, table, size, chain, j + k, off, l);
        ghost var data := buf[..];
        var _ := guest.MemcpyFromRam(buf, done, d.addr + off, l);
        assert buf[..][..done] == data[..done];
        ReceivedFurther(m, run, k, off, l, start, done, data, buf[..]);
        left, off := left - l, off + l;
        n := count - left;
        assert buf[n..] == was[n..] by {
          assert data[done..][l..] == data[n..] && was[done..][l..] == was[n..];
        }
        if left == 0 {
          return 0, n;
        }
        if off == d.len {
          LinkedAt(m, table, size, head, chain, j + k);
          AtNext(run, k, start + n);
          if !HasNext(d) {
            return -1, n;
          }
          d := Follow(d, head, chain, j + k);
          if IsWrite(d) {
            return -1, n;
          }
          k := k + 1;
          InRun(chain, j, false, k);
          off := 0;
        }
      }
    }

    lemma RunInRam(m: Flat, chain: seq<Desc>, j: nat, run: seq<Desc>)
      requires Apart(m, table, size, chain) && j <= |chain| && run == Prefix(chain[j..], false)
      ensures forall a :: a in Addrs(run) ==> a in m
    {
      PrefixShape(chain[j..], false);
      forall d | d in run ensures Covers(m, d.addr, d.len) {
        assert d in chain;
      }
      RunCovered(m, run);
    }

    lemma ReceivedNothing(m: Flat, run: seq<Desc>, start: nat, data: seq<nat>)
      requires start <= |Addrs(run)| && forall a :: a in Addrs(run) ==> a in m
      ensures Received(m, run, start, 0, data)
    {
    }

    /** The first two loops: the descriptor of the run that holds byte offset. */
    method Locate(head: nat, offset: nat, w: bool, ghost chain: seq<Desc>)
      returns (found: bool, d: Desc, off: nat, ghost j: nat, ghost k: nat)
      requires guest.Valid() && Serves(head, chain)
      ensures j <= |chain| && Run(chain, w) == Prefix(chain[j..], w)
      ensures found <==> offset < |Addrs(Run(chain, w))|
      ensures found ==> k < |Run(chain, w)| && d == Run(chain, w)[k] && off < d.len && At(Run(chain, w), k, off, offset)
    {
      hide *;
      RunIs(chain, w);
      ServesIs(head, chain);
      LinkedStart(head, chain);
      d := GetDesc(head, chain[0]);
      j, k, off := 0, 0, 0;
      assert chain[0..] == chain;
      if w {
        found, d, j := FirstWrite(d, head, chain);
        if !found {
          EmptyRow(chain, j);
          return;
        }
      }
      found, d, off, k := FindOffset(d, offset, w, head, chain, j);
      if found {
        InRun(chain, j, w, k);
        AtIs(Run(chain, w), k, off, offset);
      }
    }

    /**
     * memcpy_to_from_queue: succeeds exactly when the run is long enough, and copies exactly
     * the slice of its row that was asked for; when it fails, what there was of that slice.
     */
    method MemcpyToFromQueue(buf: array<nat>, descIdx: nat, offset: nat, count: nat, toQueue: bool, ghost chain: seq<Desc>)
      returns (ret: int)
      requires guest.Valid() && Serves(descIdx, chain) && buf != guest.ram && count <= buf.Length
      modifies buf, guest.ram
      ensures ret == if count == 0 || offset + count <= |Addrs(Run(chain, toQueue))| then 0 else -1
      ensures toQueue ==>
                && buf[..] == old(buf[..])
                && Scattered(old(guest.Mem()), guest.Mem(), Addrs(Run(chain, true)), offset, count, buf[..])
      ensures !toQueue ==>
                && guest.ram[..] == old(guest.ram[..])
                && Gathered(guest.Mem(), Addrs(Run(chain, false)), offset, count, old(buf[..]), buf[..])
    {
      hide *;
      ghost var run := Run(chain, toQueue);
      if count == 0 {
        NothingThere(guest.Mem(), Addrs(run), offset, count, buf[..]);
        return 0;
      }
      var found, d, off;
      ghost var j, k, n;
      found, d, off, j, k := Locate(descIdx, offset, toQueue, chain);
      if !found {
        NothingThere(guest.Mem(), Addrs(run), offset, count, buf[..]);
        return -1;
      }
      if toQueue {
        ret, n := CopyTo(d, off, buf, count, descIdx, chain, j, run, k, offset);
        SentScattered(old(guest.Mem()), guest.Mem(), run, offset, n, count, buf[..]);
      } else {
        ret, n := CopyFrom(d, off, buf, count, descIdx, chain, j, run, k, offset);
        assert buf[..][n..] == buf[n..] && old(buf[..])[n..] == old(buf[n..]);
        ReceivedGathered(guest.Mem(), run, offset, n, count, old(buf[..]), buf[..]);
      }
    }

    lemma PosIs(chain: seq<Desc>, j: nat)
      requires j <= |chain|
      ensures Pos(chain, j) == |Addrs(chain[..j])|
    {
    }

    lemma RunIs(chain: seq<Desc>, w: bool)
      ensures Run(chain, w) == if w then Prefix(SkipReadable(chain), true) else Prefix(chain, false)
    {
    }

    lemma LinkedStart(head: nat, chain: seq<Desc>)
      requires guest.Valid() && Linked(guest.Mem(), table, size, head, chain)
      ensures |chain| > 0 && Entry(guest.Mem(), table, size, head, chain[0])
    {
      hide Entry;
      LinkedAt(guest.Mem(), table, size, head, chain, 0);
    }

    lemma EmptyRow(chain: seq<Desc>, j: nat)
      requires j == |chain| && SkipReadable(chain) == chain[j..]
      ensures Run(chain, true) == Prefix(chain[j..], true) == [] && |Addrs(Run(chain, true))| == 0
    {
    }

    /** The readable part: its size, and the descriptor behind it unless the chain ends first. */
    method ReadableSize(d0: Desc, ghost head: nat, ghost chain: seq<Desc>) returns (ended: bool, d: Desc, n: nat)
      requires guest.Valid() && Linked(guest.Mem(), table, size, head, chain) && d0 == chain[0]
      ensures n == |Addrs(Prefix(chain, false))|
      ensures ended <==> |Prefix(chain, false)| == |chain|
      ensures !ended ==> |Prefix(chain, false)| < |chain| && d == chain[|Prefix(chain, false)|]
    {
      hide IsWrite, HasNext, Entry, DescOf, Prefix, Addrs, Pos, Linked;
      LinkedStart(head, chain);
      d, n := d0, 0;
      ghost var j := 0;
      ghost var r := Prefix(chain, false);
      PosEnd(chain);
      PrefixShape(chain, false);
      while !IsWrite(d)
        invariant j < |chain| && d == chain[j] && (forall k :: 0 <= k < j ==> IsWrite(chain[k]) == false)
        invariant n == Pos(chain, j)
        decreases |chain| - j
      {
        LinkedAt(guest.Mem(), table, size, head, chain, j);
        PosStep(chain, j);
        n := n + d.len;
        if !HasNext(d) {
          PrefixTo(chain, false, j + 1);
          PosEnd(chain);
          assert r == chain;
          ended := true;
          return;
        }
        d := Follow(d, head, chain, j);
        j := j + 1;
      }
      PrefixTo(chain, false, j);
      PosIs(chain, j);
      ended := false;
    }

    /** The rest of the chain from descriptor j on: its size, if it is all writable. */
    method WritableSize(d0: Desc, ghost head: nat, ghost chain: seq<Desc>, ghost j: nat) returns (ok: bool, n: nat)
      requires guest.Valid() && Linked(guest.Mem(), table, size, head, chain) && j < |chain| && d0 == chain[j]
      ensures ok <==> Prefix(chain[j..], true) == chain[j..]
      ensures ok ==> n == |Addrs(chain[j..])|
    {
      hide IsWrite, HasNext, Entry, DescOf, Prefix, Addrs, Pos, Linked;
      var d := d0;
      n := 0;
      ghost var rest, i := chain[j..], 0;
      PosEnd(rest);
      PrefixShape(rest, true);
      while true
        invariant j + i < |chain| && d == chain[j + i] == rest[i] && (forall k :: 0 <= k < i ==> IsWrite(rest[k]) == true)
        invariant n == Pos(rest, i)
        decreases |rest| - i
      {
        LinkedAt(guest.Mem(), table, size, head, chain, j + i);
        if !IsWrite(d) {
          PrefixTo(rest, true, i);
          return false, n;
        }
        PosStep(rest, i);
        n := n + d.len;
        if !HasNext(d) {
          PrefixTo(rest, true, i + 1);
          PosEnd(rest);
          return true, n;
        }
        d := Follow(d, head, chain, j + i);
        i := i + 1;
      }
    }

    /**
     * get_desc_rw_size: the sizes of the readable and the writable part; fails exactly when
     * a readable descriptor follows a writable one.
     */
    method GetDescRwSize(descIdx: nat, ghost chain: seq<Desc>) returns (ret: int, readSize: nat, writeSize: nat)
      requires guest.Valid() && Linked(guest.Mem(), table, size, descIdx, chain)
      ensures var r := Prefix(chain, false);
              && ret == (if Prefix(chain[|r|..], true) == chain[|r|..] then 0 else -1)
              && (ret == 0 ==> readSize == |Addrs(r)| && writeSize == |Addrs(chain[|r|..])|)
    {
      hide *;
      LinkedStart(descIdx, chain);
      var d := GetDesc(descIdx, chain[0]);
      var ended;
      ended, d, readSize := ReadableSize(d, descIdx, chain);
      writeSize := 0;
      if ended {
        NoneLeft(chain);
        return 0, readSize, 0;
      }
      var ok;
      ok, writeSize := WritableSize(d, descIdx, chain, |Prefix(chain, false)|);
      ret := if ok then 0 else -1;
    }

    lemma NoneLeft(chain: seq<Desc>)
      ensures Prefix(chain[|chain|..], true) == chain[|chain|..] && |Addrs(chain[|chain|..])| == 0
    {
    }
  }
}
