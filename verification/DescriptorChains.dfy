/**
 * Descriptor chains and what they mean: the readable prefix and the first writable run of a
 * chain are scattered buffers, read and written as if their bytes stood in one row.
 */
module DescriptorChains {
  import opened GuestMemory

  datatype Desc = Desc(addr: nat, len: nat, flags: nat, next: nat)

  const DescSize: nat := 16

  predicate HasNext(d: Desc) { d.flags % 2 == 1 }

  predicate IsWrite(d: Desc) { d.flags / 2 % 2 == 1 }

  /** Little-endian number of the n bytes from at on. */
  function Le(s: seq<nat>, at: nat, n: nat): nat
    requires at + n <= |s|
    decreases n
  {
    if n == 0 then 0 else s[at] + 256 * Le(s, at + 1, n - 1)
  }

  function DescOf(s: seq<nat>): Desc
    requires |s| == DescSize
  {
    Desc(Le(s, 0, 8), Le(s, 8, 4), Le(s, 12, 2), Le(s, 14, 2))
  }

  ghost function DescAt(m: Flat, table: nat, i: nat): Desc
    requires Covers(m, table + DescSize * i, DescSize)
  {
    DescOf(Bytes(m, table + DescSize * i, DescSize))
  }

  function IndexOf(head: nat, chain: seq<Desc>, k: nat): nat
    requires k <= |chain|
  {
    if k == 0 then head else chain[k - 1].next
  }

  /** Descriptor i of the table is d. */
  ghost predicate Entry(m: Flat, table: nat, size: nat, i: nat, d: Desc) {
    i < size && Covers(m, table + DescSize * i, DescSize) && d == DescAt(m, table, i)
  }

  /** The chain that starts at head, in a table of size descriptors; it ends, so it has no cycle. */
  ghost predicate Linked(m: Flat, table: nat, size: nat, head: nat, chain: seq<Desc>) {
    && |chain| > 0
    && (forall k {:trigger chain[k]} :: 0 <= k < |chain| ==>
          && Entry(m, table, size, IndexOf(head, chain, k), chain[k])
          && (HasNext(chain[k]) <==> k + 1 < |chain|))
  }

  /** Buffers lie in RAM, and the device may write none that overlaps the table. */
  ghost predicate Apart(m: Flat, table: nat, size: nat, chain: seq<Desc>) {
    forall d :: d in chain ==>
      Covers(m, d.addr, d.len) && (IsWrite(d) ==> d.addr + d.len <= table || table + DescSize * size <= d.addr)
  }

  // ---- The two runs of a chain ----

  function Prefix(chain: seq<Desc>, w: bool): (run: seq<Desc>)
    ensures |run| <= |chain|
  {
    if chain == [] || IsWrite(chain[0]) != w then [] else [chain[0]] + Prefix(chain[1..], w)
  }

  function SkipReadable(chain: seq<Desc>): (rest: seq<Desc>)
    ensures |rest| <= |chain|
  {
    if chain == [] || IsWrite(chain[0]) then chain else SkipReadable(chain[1..])
  }

  /** What a request may read, or where its answer goes. */
  function Run(chain: seq<Desc>, w: bool): seq<Desc> {
    if w then Prefix(SkipReadable(chain), true) else Prefix(chain, false)
  }

  lemma {:induction false} SkipTo(chain: seq<Desc>, j: nat)
    requires j <= |chain| && forall k :: 0 <= k < j ==> !IsWrite(chain[k])
    requires j == |chain| || IsWrite(chain[j])
    ensures SkipReadable(chain) == chain[j..]
    decreases |chain|
  {
    if j > 0 {
      SkipTo(chain[1..], j - 1);
      assert chain[1..][j - 1..] == chain[j..];
    }
  }

  /** A run is the longest prefix of its kind. */
  lemma {:induction false} PrefixShape(chain: seq<Desc>, w: bool)
    ensures var run := Prefix(chain, w);
            && run == chain[..|run|] && (forall k :: 0 <= k < |run| ==> IsWrite(chain[k]) == w)
            && (|run| < |chain| ==> IsWrite(chain[|run|]) != w)
    decreases |chain|
  {
    hide IsWrite;
    if chain != [] && IsWrite(chain[0]) == w {
      PrefixShape(chain[1..], w);
      var run := Prefix(chain[1..], w);
      assert [chain[0]] + chain[1..][..|run|] == chain[..|run| + 1];
    }
  }

  /** A stretch of the right kind belongs to the run. */
  lemma PrefixTo(chain: seq<Desc>, w: bool, k: nat)
    requires k <= |chain| && forall i :: 0 <= i < k ==> IsWrite(chain[i]) == w
    ensures k <= |Prefix(chain, w)|
    ensures k < |chain| && IsWrite(chain[k]) != w ==> |Prefix(chain, w)| == k
  {
    PrefixShape(chain, w);
  }

  // ---- Bytes of a run ----

  function Range(addr: nat, n: nat): (s: seq<nat>)
    ensures |s| == n
  {
    seq(n, i requires 0 <= i < n => addr + i)
  }

  /** The addresses of all bytes of a run, in order. */
  function Addrs(run: seq<Desc>): seq<nat> {
    if run == [] then [] else Range(run[0].addr, run[0].len) + Addrs(run[1..])
  }

  lemma {:induction false} AddrsSplit(run: seq<Desc>, k: nat)
    requires k <= |run|
    ensures Addrs(run) == Addrs(run[..k]) + Addrs(run[k..])
    decreases k
  {
    if k == 0 {
      assert run[..0] == [] && run[0..] == run;
    } else {
      AddrsSplit(run[1..], k - 1);
      assert run[1..][..k - 1] == run[1..k] && run[1..][k - 1..] == run[k..];
      assert run[..k][1..] == run[1..k];
    }
  }

  /** Where descriptor k begins in the row of bytes. */
  function Pos(run: seq<Desc>, k: nat): nat
    requires k <= |run|
  {
    |Addrs(run[..k])|
  }

  lemma PosStep(run: seq<Desc>, k: nat)
    requires k < |run|
    ensures Pos(run, k + 1) == Pos(run, k) + run[k].len <= |Addrs(run)|
    ensures Addrs(run)[Pos(run, k)..Pos(run, k) + run[k].len] == Range(run[k].addr, run[k].len)
  {
    hide Addrs;
    AddrsSplit(run, k);
    AddrsFirst(run[k..]);
    AddrsSplit(run[..k + 1], k);
    AddrsFirst([run[k]]);
    assert run[..k + 1][..k] == run[..k] && run[..k + 1][k..] == [run[k]];
  }

  lemma AddrsFirst(run: seq<Desc>)
    requires run != []
    ensures Addrs(run) == Range(run[0].addr, run[0].len) + Addrs(run[1..])
    ensures |run| == 1 ==> Addrs(run) == Range(run[0].addr, run[0].len)
  {
  }

  /** Part of a descriptor is part of the row. */
  lemma PartOf(run: seq<Desc>, k: nat, o: nat, l: nat)
    requires k < |run| && o + l <= run[k].len
    ensures Pos(run, k) + o + l <= |Addrs(run)|
    ensures Addrs(run)[Pos(run, k) + o..Pos(run, k) + o + l] == Range(run[k].addr + o, l)
  {
    PosStep(run, k);
    var all, p := Addrs(run), Pos(run, k);
    assert all[p + o..p + o + l] == all[p..p + run[k].len][o..o + l];
  }

  lemma PosEnd(run: seq<Desc>)
    ensures Pos(run, |run|) == |Addrs(run)| && Pos(run, 0) == 0
  {
    assert run[..|run|] == run && run[..0] == [];
  }

  /** Bytes stored one after the other; a later one wins. */
  ghost function Stored(m: Flat, addrs: seq<nat>, bytes: seq<nat>): Flat
    requires |addrs| == |bytes|
  {
    if addrs == [] then m else Stored(m[addrs[0] := bytes[0]], addrs[1..], bytes[1..])
  }

  lemma {:induction false} StoredAppend(m: Flat, a: seq<nat>, b: seq<nat>, x: seq<nat>, y: seq<nat>)
    requires |a| == |x| && |b| == |y|
    ensures Stored(m, a + b, x + y) == Stored(Stored(m, a, x), b, y)
    decreases |a|
  {
    if a == [] {
      assert a + b == b && x + y == y;
    } else {
      assert (a + b)[1..] == a[1..] + b && (x + y)[1..] == x[1..] + y;
      StoredAppend(m[a[0] := x[0]], a[1..], b, x[1..], y);
    }
  }

  lemma {:induction false} StoredRange(m: Flat, addr: nat, bytes: seq<nat>)
    requires Covers(m, addr, |bytes|)
    ensures Stored(m, Range(addr, |bytes|), bytes) == Overlay(m, addr, bytes)
    decreases |bytes|
  {
    if bytes == [] {
      OverlayNothing(m, addr);
    } else {
      var m1 := m[addr := bytes[0]];
      assert m1 == Overlay(m, addr, [bytes[0]]);
      assert Range(addr, |bytes|)[1..] == Range(addr + 1, |bytes| - 1);
      StoredRange(m1, addr + 1, bytes[1..]);
      OverlayTwice(m, addr, [bytes[0]], bytes[1..]);
      assert [bytes[0]] + bytes[1..] == bytes;
    }
  }

  ghost function Fetched(m: Flat, addrs: seq<nat>): (s: seq<nat>)
    requires forall a :: a in addrs ==> a in m
    ensures |s| == |addrs|
  {
    seq(|addrs|, i requires 0 <= i < |addrs| => m[addrs[i]])
  }

  lemma {:induction false} RunCovered(m: Flat, run: seq<Desc>)
    requires forall d :: d in run ==> Covers(m, d.addr, d.len)
    ensures forall a :: a in Addrs(run) ==> a in m
    decreases |run|
  {
    if run != [] {
      RunCovered(m, run[1..]);
    }
  }

  // ---- Stores beside the table do not move the chain ----

  lemma LinkedAt(m: Flat, table: nat, size: nat, head: nat, chain: seq<Desc>, k: nat)
    requires Linked(m, table, size, head, chain) && k < |chain|
    ensures Entry(m, table, size, IndexOf(head, chain, k), chain[k])
    ensures HasNext(chain[k]) <==> k + 1 < |chain|
  {
    hide Entry, HasNext;
  }

  lemma EntryKept(m: Flat, table: nat, size: nat, i: nat, d: Desc, addr: nat, bytes: seq<nat>)
    requires Entry(m, table, size, i, d)
    requires addr + |bytes| <= table || table + DescSize * size <= addr
    ensures Entry(Overlay(m, addr, bytes), table, size, i, d)
  {
    hide DescOf;
    var at, m' := table + DescSize * i, Overlay(m, addr, bytes);
    assert at + DescSize <= table + DescSize * size;
    assert Bytes(m', at, DescSize) == Bytes(m, at, DescSize);
  }

  lemma LinkedKept(m: Flat, table: nat, size: nat, head: nat, chain: seq<Desc>, addr: nat, bytes: seq<nat>)
    requires Linked(m, table, size, head, chain)
    requires addr + |bytes| <= table || table + DescSize * size <= addr
    ensures Linked(Overlay(m, addr, bytes), table, size, head, chain)
  {
    hide Entry, HasNext;
    forall k {:trigger chain[k]} | 0 <= k < |chain|
      ensures Entry(Overlay(m, addr, bytes), table, size, IndexOf(head, chain, k), chain[k])
    {
      LinkedAt(m, table, size, head, chain, k);
      EntryKept(m, table, size, IndexOf(head, chain, k), chain[k], addr, bytes);
    }
  }

  lemma ApartKept(m: Flat, table: nat, size: nat, chain: seq<Desc>, addr: nat, bytes: seq<nat>)
    requires Apart(m, table, size, chain)
    ensures Apart(Overlay(m, addr, bytes), table, size, chain)
  {
    forall d | d in chain
      ensures Covers(Overlay(m, addr, bytes), d.addr, d.len)
    {
      assert Covers(m, d.addr, d.len);
    }
  }

  // ---- A copy in progress ----

  /** Byte off of descriptor k is byte p of the row. */
  ghost predicate At(run: seq<Desc>, k: nat, off: nat, p: nat) {
    k < |run| && off <= run[k].len && Pos(run, k) + off == p
  }

  /** The first done bytes of data are stored into the row from start on. */
  ghost predicate Sent(m0: Flat, m: Flat, run: seq<Desc>, start: nat, done: nat, data: seq<nat>) {
    && start + done <= |Addrs(run)| && done <= |data|
    && m == Stored(m0, Addrs(run)[start..start + done], data[..done])
  }

  /** The first done bytes of data are those of the row from start on. */
  ghost predicate Received(m: Flat, run: seq<Desc>, start: nat, done: nat, data: seq<nat>) {
    && start + done <= |Addrs(run)| && done <= |data|
    && (forall a :: a in Addrs(run) ==> a in m)
    && data[..done] == Fetched(m, Addrs(run)[start..start + done])
  }

  lemma AtWithin(run: seq<Desc>, k: nat, off: nat, p: nat, l: nat)
    requires At(run, k, off, p) && off + l <= run[k].len
    ensures At(run, k, off + l, p + l) && p + l <= |Addrs(run)|
  {
    PosStep(run, k);
  }

  lemma AtNext(run: seq<Desc>, k: nat, p: nat)
    requires k < |run| && At(run, k, run[k].len, p)
    ensures k + 1 < |run| ==> At(run, k + 1, 0, p)
    ensures k + 1 == |run| ==> p == |Addrs(run)|
  {
    PosStep(run, k);
    PosEnd(run);
  }

  lemma SlicePieces(a: seq<nat>, from: nat, k: nat, l: nat)
    requires from + k + l <= |a|
    ensures a[from..from + k] + a[from + k..from + k + l] == a[from..from + k + l]
  {
  }

  lemma SentNothing(m: Flat, run: seq<Desc>, start: nat, data: seq<nat>)
    requires start <= |Addrs(run)|
    ensures Sent(m, m, run, start, 0, data)
  {
  }

  /** Storing the next l bytes into descriptor k extends the copy into the row. */
  lemma SentFurther(m0: Flat, m: Flat, run: seq<Desc>, k: nat, off: nat, l: nat, start: nat, done: nat, data: seq<nat>)
    requires At(run, k, off, start + done) && off + l <= run[k].len && done + l <= |data|
    requires Sent(m0, m, run, start, done, data) && Covers(m, run[k].addr + off, l)
    ensures Sent(m0, Overlay(m, run[k].addr + off, data[done..done + l]), run, start, done + l, data)
  {
    hide Stored, Overlay, Addrs, Pos, Covers;
    var a := Addrs(run);
    PartOf(run, k, off, l);
    StoredRange(m, run[k].addr + off, data[done..done + l]);
    SlicePieces(a, start, done, l);
    SlicePieces(data, 0, done, l);
    assert data[0..done] == data[..done] && data[0..done + l] == data[..done + l];
    StoredAppend(m0, a[start..start + done], a[start + done..start + done + l], data[..done], data[done..done + l]);
  }

  /** The next l bytes of descriptor k are the next l bytes of the row. */
  lemma ReceivedFurther(m: Flat, run: seq<Desc>, k: nat, off: nat, l: nat, start: nat, done: nat, data: seq<nat>, data': seq<nat>)
    requires At(run, k, off, start + done) && off + l <= run[k].len && done + l <= |data'|
    requires Received(m, run, start, done, data) && Covers(m, run[k].addr + off, l)
    requires data'[..done] == data[..done] && data'[done..done + l] == Bytes(m, run[k].addr + off, l)
    ensures Received(m, run, start, done + l, data')
  {
    hide Addrs, Pos;
    var a := Addrs(run);
    PartOf(run, k, off, l);
    SlicePieces(a, start, done, l);
    assert data'[..done + l] == data'[..done] + data'[done..done + l];
    assert Fetched(m, a[start + done..start + done + l]) == Bytes(m, run[k].addr + off, l);
  }

  /** Part of a buffer: in RAM, and when it is for writing clear of the table. */
  lemma BufferApart(m: Flat, table: nat, size: nat, chain: seq<Desc>, i: nat, off: nat, l: nat)
    requires Apart(m, table, size, chain) && i < |chain| && off + l <= chain[i].len
    ensures Covers(m, chain[i].addr + off, l)
    ensures IsWrite(chain[i]) ==>
              chain[i].addr + off + l <= table || table + DescSize * size <= chain[i].addr + off
  {
    var d := chain[i];
    assert d in chain;
    assert Covers(m, d.addr, d.len);
  }

  /** One piece stored: the chain stands as it stood. */
  lemma ChainStands(m: Flat, table: nat, size: nat, head: nat, chain: seq<Desc>, i: nat, off: nat, bytes: seq<nat>)
    requires Linked(m, table, size, head, chain) && Apart(m, table, size, chain)
    requires i < |chain| && IsWrite(chain[i]) && off + |bytes| <= chain[i].len
    ensures var m' := Overlay(m, chain[i].addr + off, bytes);
            Linked(m', table, size, head, chain) && Apart(m', table, size, chain)
  {
    hide *;
    BufferApart(m, table, size, chain, i, off, |bytes|);
    LinkedKept(m, table, size, head, chain, chain[i].addr + off, bytes);
    ApartKept(m, table, size, chain, chain[i].addr + off, bytes);
  }

  // ---- What a copy comes to ----

  /** How many of count bytes from offset on a row of len bytes has. */
  function Available(len: nat, offset: nat, count: nat): (n: nat)
    ensures n <= count && (n > 0 ==> offset + n <= len) && (n == count <==> count == 0 || offset + count <= len)
  {
    if count == 0 || offset + count <= len then count else if offset <= len then len - offset else 0
  }

  /** The available part of data has been stored into the slice of the row, and nothing else. */
  ghost predicate Scattered(m0: Flat, m: Flat, row: seq<nat>, offset: nat, count: nat, data: seq<nat>) {
    var n := Available(|row|, offset, count);
    n <= |data| && m == if n == 0 then m0 else Stored(m0, row[offset..offset + n], data[..n])
  }

  /** The available part of the slice of the row has arrived at the front of data, and nothing else. */
  ghost predicate Gathered(m: Flat, row: seq<nat>, offset: nat, count: nat, data0: seq<nat>, data: seq<nat>) {
    var n := Available(|row|, offset, count);
    && n <= |data| == |data0| && data[n..] == data0[n..]
    && (n > 0 ==> (forall a :: a in row ==> a in m) && data[..n] == Fetched(m, row[offset..offset + n]))
  }

  lemma SentScattered(m0: Flat, m: Flat, run: seq<Desc>, start: nat, n: nat, count: nat, data: seq<nat>)
    requires Sent(m0, m, run, start, n, data) && start < |Addrs(run)|
    requires n == count || (n < count && start + n == |Addrs(run)|)
    ensures Scattered(m0, m, Addrs(run), start, count, data)
    ensures n == count <==> start + count <= |Addrs(run)|
  {
  }

  lemma ReceivedGathered(m: Flat, run: seq<Desc>, start: nat, n: nat, count: nat, data0: seq<nat>, data: seq<nat>)
    requires Received(m, run, start, n, data) && start < |Addrs(run)| && |data0| == |data| && data[n..] == data0[n..]
    requires n == count || (n < count && start + n == |Addrs(run)|)
    ensures Gathered(m, Addrs(run), start, count, data0, data)
    ensures n == count <==> start + count <= |Addrs(run)|
  {
  }

  lemma NothingThere(m: Flat, row: seq<nat>, offset: nat, count: nat, data: seq<nat>)
    requires count == 0 || |row| <= offset
    ensures Scattered(m, m, row, offset, count, data) && Gathered(m, row, offset, count, data, data)
  {
  }
}
