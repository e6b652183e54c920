/**
 * Descriptors, headers, buffers and answers as the driver sees them: which bytes it lays out
 * in guest memory, and which bytes it finds there and on the disk afterwards.
 */
module VirtioLaws {
  import opened Powers
  import opened ByteOrder
  import opened GuestMemory
  import opened DescriptorChains
  import opened VirtioBlock
  import opened Wrappers

  // ---- Numbers in memory ----

  /** The number read has the bytes that stand there, lowest first, and is no longer than they are. */
  lemma {:induction false} LeBytes(s: seq<nat>, at: nat, n: nat)
    requires at + n <= |s| && AreBytes(s)
    ensures HasBytes(Le(s, at, n), s[at..at + n])
    decreases n
  {
    hide HasBytes, Pow2;
    if n == 0 {
      assert s[at..at + n] == [];
      NoBytes();
    } else {
      LeBytes(s, at + 1, n - 1);
      Prepend(s[at], Le(s, at + 1, n - 1), s[at + 1..at + n]);
      assert [s[at]] + s[at + 1..at + n] == s[at..at + n];
    }
  }

  lemma LeIs(s: seq<nat>, at: nat, n: nat, v: nat)
    requires at + n <= |s| && AreBytes(s) && HasBytes(v, s[at..at + n])
    ensures Le(s, at, n) == v
  {
    hide *;
    LeBytes(s, at, n);
    BytesDetermine(Le(s, at, n), v, s[at..at + n]);
  }

  /** Byte k of v stands k places behind addr. */
  ghost predicate HoldsByte(m: Flat, addr: nat, k: nat, v: nat) {
    addr + k in m && m[addr + k] == v / Pow2(8 * k) % 256
  }

  /** The driver has written v into the n bytes of memory from addr on, lowest byte first. */
  ghost predicate Laid(m: Flat, addr: nat, n: nat, v: nat) {
    v < Pow2(8 * n) && forall k :: 0 <= k < n ==> HoldsByte(m, addr, k, v)
  }

  lemma LaidBytes(m: Flat, addr: nat, n: nat, v: nat)
    requires Laid(m, addr, n, v)
    ensures Covers(m, addr, n) && HasBytes(v, Bytes(m, addr, n)) && AreBytes(Bytes(m, addr, n))
  {
    hide Pow2;
    forall a: nat | addr <= a < addr + n ensures a in m {
      assert HoldsByte(m, addr, a - addr, v);
    }
    var s := Bytes(m, addr, n);
    forall k | 0 <= k < n ensures s[k] == v / Pow2(8 * k) % 256 {
      assert HoldsByte(m, addr, k, v);
    }
  }

  /** A descriptor: address, length, flags and next, 8, 4, 2 and 2 bytes wide. */
  lemma DescriptorReads(m: Flat, table: nat, i: nat, addr: nat, len: nat, flags: nat, next: nat)
    requires var at := table + 16 * i;
      Laid(m, at, 8, addr) && Laid(m, at + 8, 4, len) && Laid(m, at + 12, 2, flags) && Laid(m, at + 14, 2, next)
    ensures Covers(m, table + DescSize * i, DescSize) && DescAt(m, table, i) == Desc(addr, len, flags, next)
  {
    hide Le, HasBytes, Pow2, Laid, AreBytes;
    var at := table + 16 * i;
    LaidBytes(m, at, 8, addr);
    LaidBytes(m, at + 8, 4, len);
    LaidBytes(m, at + 12, 2, flags);
    LaidBytes(m, at + 14, 2, next);
    var s := Bytes(m, at, 16);
    FourParts(Bytes(m, at, 8), Bytes(m, at + 8, 4), Bytes(m, at + 12, 2), Bytes(m, at + 14, 2), s);
    LeIs(s, 0, 8, addr);
    LeIs(s, 8, 4, len);
    LeIs(s, 12, 2, flags);
    LeIs(s, 14, 2, next);
  }

  lemma FourParts(a: seq<nat>, b: seq<nat>, c: seq<nat>, d: seq<nat>, s: seq<nat>)
    requires |a| == 8 && |b| == 4 && |c| == 2 && |d| == 2 && s == a + b + c + d
    requires AreBytes(a) && AreBytes(b) && AreBytes(c) && AreBytes(d)
    ensures |s| == 16 && s[0..8] == a && s[8..12] == b && s[12..14] == c && s[14..16] == d && AreBytes(s)
  {
  }

  /** Flag 1 says that another descriptor follows, flag 2 that the device may write. */
  lemma FlagsRead(d: Desc)
    ensures HasNext(d) <==> d.flags % 2 == 1
    ensures IsWrite(d) <==> d.flags % 4 >= 2
  {
    FlagTwo(d.flags);
  }

  lemma FlagTwo(x: nat)
    ensures x / 2 % 2 == 1 <==> x % 4 >= 2
  {
    DivModUnique(x, 4, x / 2 / 2, x / 2 % 2 * 2 + x % 2);
  }

  // ---- The two runs ----

  /** In a well-formed chain the first n descriptors are for the device to read, the others to write. */
  lemma RunsSplit(chain: seq<Desc>, n: nat)
    requires n <= |chain|
    requires forall k :: 0 <= k < n ==> chain[k].flags / 2 % 2 == 0
    requires forall k :: n <= k < |chain| ==> chain[k].flags / 2 % 2 == 1
    ensures WellFormed(chain) && Run(chain, false) == chain[..n] && Run(chain, true) == chain[n..]
  {
    PrefixShape(chain, false);
    PrefixTo(chain, false, n);
    PrefixTo(chain[n..], true, |chain| - n);
    PrefixShape(chain[n..], true);
    SkipTo(chain, n);
  }

  lemma WellFormedSplits(chain: seq<Desc>) returns (n: nat)
    requires WellFormed(chain)
    ensures n <= |chain|
    ensures forall k :: 0 <= k < n ==> chain[k].flags / 2 % 2 == 0
    ensures forall k :: n <= k < |chain| ==> chain[k].flags / 2 % 2 == 1
  {
    n := |Prefix(chain, false)|;
    PrefixShape(chain, false);
    PrefixShape(chain[n..], true);
    forall k | n <= k < |chain| ensures chain[k].flags / 2 % 2 == 1 {
      assert chain[n..][k - n] == chain[k];
    }
  }

  /** The lengths of the first k buffers. */
  function Before(run: seq<Desc>, k: nat): nat
    requires k <= |run|
  {
    if k == 0 then 0 else Before(run, k - 1) + run[k - 1].len
  }

  lemma {:induction false} BeforeIs(run: seq<Desc>, k: nat)
    requires k <= |run|
    ensures Before(run, k) == Pos(run, k)
    decreases k
  {
    hide Pos;
    if k == 0 {
      PosEnd(run);
    } else {
      BeforeIs(run, k - 1);
      PosStep(run, k - 1);
    }
  }

  /** Byte j of buffer k stands behind all bytes of the buffers before it. */
  lemma RowInNumbers(run: seq<Desc>, k: nat, j: nat)
    requires k < |run| && j < run[k].len
    ensures Before(run, k) + j < |Addrs(run)| == Before(run, |run|)
    ensures Addrs(run)[Before(run, k) + j] == run[k].addr + j
  {
    hide Pos, Addrs;
    BeforeIs(run, k);
    BeforeIs(run, |run|);
    PosEnd(run);
    PosStep(run, k);
    var p := Pos(run, k);
    assert Addrs(run)[p..p + run[k].len][j] == Addrs(run)[p + j];
  }

  /** What is stored is found at its address, unless a later byte went there too; nothing else changes. */
  lemma {:induction false} StoredAt(m: Flat, addrs: seq<nat>, bytes: seq<nat>, i: nat)
    requires |addrs| == |bytes| && i < |addrs| && forall j :: i < j < |addrs| ==> addrs[j] != addrs[i]
    ensures addrs[i] in Stored(m, addrs, bytes) && Stored(m, addrs, bytes)[addrs[i]] == bytes[i]
    decreases |addrs|
  {
    if i == 0 {
      StoredBeside(m[addrs[0] := bytes[0]], addrs[1..], bytes[1..], addrs[0]);
    } else {
      StoredAt(m[addrs[0] := bytes[0]], addrs[1..], bytes[1..], i - 1);
    }
  }

  lemma {:induction false} StoredBeside(m: Flat, addrs: seq<nat>, bytes: seq<nat>, a: nat)
    requires |addrs| == |bytes| && forall j :: 0 <= j < |addrs| ==> addrs[j] != a
    ensures a in Stored(m, addrs, bytes) <==> a in m
    ensures a in m ==> Stored(m, addrs, bytes)[a] == m[a]
    decreases |addrs|
  {
    if addrs != [] {
      StoredBeside(m[addrs[0] := bytes[0]], addrs[1..], bytes[1..], a);
    }
  }

  /** Byte a of guest memory stands at a % 4096 in the host page of the guest page a / 4096. */
  lemma FlatInNumbers(frames: map<nat, nat>, ram: seq<nat>, a: nat)
    requires Framed(frames, |ram|)
    ensures a in FlatOf(frames, ram) <==> a / 4096 in frames
    ensures a / 4096 in frames ==> frames[a / 4096] + a % 4096 < |ram| && FlatOf(frames, ram)[a] == ram[frames[a / 4096] + a % 4096]
  {
  }

  /** What a copy from a chain fetches: byte i of the buffer is byte offset + i of the row, as far as the row goes. */
  lemma GatheredAt(m: Flat, row: seq<nat>, offset: nat, count: nat, was: seq<nat>, now: seq<nat>, i: nat)
    requires Gathered(m, row, offset, count, was, now) && i < |now|
    ensures |now| == |was|
    ensures i < count && offset + i < |row| ==> row[offset + i] in m && now[i] == m[row[offset + i]]
    ensures !(i < count && offset + i < |row|) ==> now[i] == was[i]
  {
    var n := Available(|row|, offset, count);
    if i < n {
      assert now[..n][i] == now[i];
      assert row[offset..offset + n][i] == row[offset + i];
    } else {
      assert now[n..][i - n] == now[i] && was[n..][i - n] == was[i];
    }
  }

  /** What a copy to a chain stores, when no address comes twice: byte i of the buffer at byte offset + i of the row, nothing else. */
  lemma ScatteredAt(m0: Flat, m: Flat, row: seq<nat>, offset: nat, count: nat, data: seq<nat>, j: nat)
    requires Scattered(m0, m, row, offset, count, data) && j < |row|
    requires forall x, y :: 0 <= x < y < |row| ==> row[x] != row[y]
    ensures offset <= j < offset + count ==> j - offset < |data| && row[j] in m && m[row[j]] == data[j - offset]
    ensures !(offset <= j < offset + count) ==> (row[j] in m <==> row[j] in m0) && (row[j] in m0 ==> m[row[j]] == m0[row[j]])
    ensures forall a :: a !in row ==> (a in m <==> a in m0) && (a in m0 ==> m[a] == m0[a])
  {
    var n := Available(|row|, offset, count);
    if n > 0 {
      var part, front := row[offset..offset + n], data[..n];
      assert forall k :: 0 <= k < n ==> part[k] == row[offset + k];
      if offset <= j < offset + n {
        StoredAt(m0, part, front, j - offset);
      } else {
        StoredBeside(m0, part, front, row[j]);
      }
      forall a | a !in row ensures (a in m <==> a in m0) && (a in m0 ==> m[a] == m0[a]) {
        StoredBeside(m0, part, front, a);
      }
    }
  }

  // ---- Requests ----

  /** Byte k of v stands at place at + k of the row. */
  ghost predicate RowByte(m: Flat, row: seq<nat>, at: nat, k: nat, v: nat)
    requires at + k < |row|
  {
    row[at + k] in m && m[row[at + k]] == v / Pow2(8 * k) % 256
  }

  /** The driver has laid v over n bytes of the row, lowest byte first. */
  ghost predicate RowHolds(m: Flat, row: seq<nat>, at: nat, n: nat, v: nat) {
    at + n <= |row| && v < Pow2(8 * n) && forall k :: 0 <= k < n ==> RowByte(m, row, at, k, v)
  }

  lemma RowBytes(m: Flat, row: seq<nat>, at: nat, n: nat, v: nat)
    requires InRam(m, row) && RowHolds(m, row, at, n, v)
    ensures HasBytes(v, Fetched(m, row[at..at + n])) && AreBytes(Fetched(m, row[at..at + n]))
  {
    hide Pow2;
    var s := Fetched(m, row[at..at + n]);
    forall k | 0 <= k < n ensures s[k] == v / Pow2(8 * k) % 256 {
      assert RowByte(m, row, at, k, v);
    }
  }

  /** The header: type in 4 bytes, 4 bytes of priority, the sector in 8; the payload stands behind it. */
  lemma HeaderReads(m: Flat, row: seq<nat>, kind: nat, prio: nat, sector: nat)
    requires InRam(m, row) && RowHolds(m, row, 0, 4, kind) && RowHolds(m, row, 4, 4, prio) && RowHolds(m, row, 8, 8, sector)
    ensures HeaderSize <= |row| && TypeOf(m, row) == kind && SectorNum(m, row) == sector
    ensures Payload(m, row) == Fetched(m, row[16..])
  {
    hide Le, HasBytes, Pow2, AreBytes;
    var h := Header(m, row);
    RowBytes(m, row, 0, 4, kind);
    RowBytes(m, row, 4, 4, prio);
    RowBytes(m, row, 8, 8, sector);
    ThreeParts(Fetched(m, row[0..4]), Fetched(m, row[4..8]), Fetched(m, row[8..16]), h);
    LeIs(h, 0, 4, kind);
    LeIs(h, 8, 8, sector);
  }

  lemma ThreeParts(a: seq<nat>, b: seq<nat>, c: seq<nat>, s: seq<nat>)
    requires |a| == 4 && |b| == 4 && |c| == 8 && s == a + b + c
    requires AreBytes(a) && AreBytes(b) && AreBytes(c)
    ensures |s| == 16 && s[0..4] == a && s[4..8] == b && s[8..16] == c && AreBytes(s)
  {
  }

  // ---- Sectors ----

  /** Byte j of sector i of a row of sectors. */
  lemma {:induction false} JoinedAt(ss: seq<seq<nat>>, i: nat, j: nat)
    requires Whole(ss) && i < |ss| && j < 512
    ensures 512 * i + j < |Joined(ss)| == 512 * |ss| && Joined(ss)[512 * i + j] == ss[i][j]
    decreases |ss|
  {
    var front := ss[..|ss| - 1];
    if i < |ss| - 1 {
      JoinedAt(front, i, j);
      assert front[i] == ss[i];
    }
  }

  /** The disk after a write, byte by byte. */
  lemma OverwrittenAt(disk: seq<seq<nat>>, first: nat, n: nat, data: seq<nat>, i: nat)
    requires 512 * n <= |data| && first + n <= |disk| && Whole(disk) && i < |disk|
    ensures var d := Overwritten(disk, first, Chunks(data, n));
      d[i] == if first <= i < first + n then data[512 * (i - first)..512 * (i - first) + 512] else disk[i]
  {
    if first <= i < first + n {
      assert Chunks(data, n)[i - first] == data[512 * (i - first)..512 * (i - first + 1)];
    }
  }

  /**
   * What the driver finds after a read of sectors, type 0: sector data in its buffers in order, byte
   * by byte, and behind them in the last byte 0, or 1 if there is no file; the disk is as it was.
   */
  lemma ReadInNumbers(m0: Flat, m: Flat, rd: seq<nat>, wr: seq<nat>, d0: seq<seq<nat>>, d: seq<seq<nat>>,
                      mode: Mode, open: bool, used: Option<nat>, data: seq<nat>, i: nat, j: nat)
    requires InRam(m0, rd) && HeaderSize <= |rd| && Served(m0, m, rd, wr, d0, d, mode, open, used, data)
    requires TypeOf(m0, rd) == 0
    requires forall x, y :: 0 <= x < y < |wr| ==> wr[x] != wr[y]
    ensures used == Some(|wr|) && d == d0 && |wr| >= 1 && Whole(d0)
    ensures wr[|wr| - 1] in m && m[wr[|wr| - 1]] == if open then 0 else 1
    ensures i < (|wr| - 1) / 512 && j < 512 ==> 512 * i + j < |wr| && SectorNum(m0, rd) + i < |d0|
    ensures i < (|wr| - 1) / 512 && j < 512 && open ==>
      wr[512 * i + j] in m && m[wr[512 * i + j]] == d0[SectorNum(m0, rd) + i][j]
    ensures forall a :: a !in wr ==> (a in m <==> a in m0) && (a in m0 ==> m[a] == m0[a])
  {
    hide TypeOf, SectorNum, Stored, Joined;
    var sector, n := SectorNum(m0, rd), (|wr| - 1) / 512;
    StoredAt(m0, wr, data, |wr| - 1);
    forall a | a !in wr ensures (a in m <==> a in m0) && (a in m0 ==> m[a] == m0[a]) {
      StoredBeside(m0, wr, data, a);
    }
    if i < n && j < 512 && open {
      var at := 512 * i + j;
      StoredAt(m0, wr, data, at);
      var ss := d0[sector..sector + n];
      JoinedAt(ss, i, j);
      assert data[..512 * n][at] == data[at];
    }
  }

  /**
   * What a write of sectors, type 1, leaves: the sectors the header names hold the payload and no
   * other sector changes, unless the disk refuses; the first writable byte says 0, or 1 if refused.
   */
  lemma WriteInNumbers(m0: Flat, m: Flat, rd: seq<nat>, wr: seq<nat>, d0: seq<seq<nat>>, d: seq<seq<nat>>,
                       mode: Mode, open: bool, used: Option<nat>, data: seq<nat>, i: nat, j: nat)
    requires InRam(m0, rd) && HeaderSize <= |rd| && Served(m0, m, rd, wr, d0, d, mode, open, used, data)
    requires TypeOf(m0, rd) == 1 && Whole(d0) && i < |d0| && j < 512
    ensures var sector, n := SectorNum(m0, rd), (|rd| - 16) / 512;
      var ok := mode == ReadWrite || (mode == Snapshot && sector + n <= |d0|);
      && used == Some(1) && |wr| >= 1 && |d| == |d0| && Whole(d)
      && wr[0] in m && m[wr[0]] == (if ok then 0 else 1)
      && (forall a :: a != wr[0] ==> (a in m <==> a in m0) && (a in m0 ==> m[a] == m0[a]))
      && (if ok && sector <= i < sector + n then
            16 + 512 * (i - sector) + j < |rd| && rd[16 + 512 * (i - sector) + j] in m0
            && d[i][j] == m0[rd[16 + 512 * (i - sector) + j]]
          else d[i] == d0[i])
  {
    hide TypeOf, SectorNum, Overwritten, Chunks, Stored, Payload;
    var sector, n := SectorNum(m0, rd), (|rd| - 16) / 512;
    var ok, payload := Writable(mode, |d0|, sector, n), Payload(m0, rd);
    OneByte(m0, wr[0], Status(ok));
    assert wr[..1] == [wr[0]];
    if ok {
      OverwrittenWhole(d0, sector, n, payload);
      OverwrittenAt(d0, sector, n, payload, i);
      if sector <= i < sector + n {
        var k := 512 * (i - sector) + j;
        PayloadAt(m0, rd, k);
        assert payload[512 * (i - sector)..512 * (i - sector) + 512][j] == payload[k];
      }
    }
  }

  lemma PayloadAt(m: Flat, row: seq<nat>, k: nat)
    requires InRam(m, row) && HeaderSize <= |row| && 16 + k < |row|
    ensures row[16 + k] in m && Payload(m, row)[k] == m[row[16 + k]]
  {
    assert row[16 + k] in row;
  }

  lemma OneByte(m: Flat, a: nat, b: nat)
    ensures Stored(m, [a], [b]) == m[a := b]
  {
  }

  lemma OverwrittenWhole(d: seq<seq<nat>>, first: nat, n: nat, data: seq<nat>)
    requires 512 * n <= |data| && first + n <= |d| && Whole(d)
    ensures Whole(Overwritten(d, first, Chunks(data, n)))
  {
    WrittenIsRead(d, first, n, data, n);
  }

  /** A request without a header, or of any other type, is left alone. */
  lemma OthersInNumbers(m0: Flat, m: Flat, rd: seq<nat>, wr: seq<nat>, d0: seq<seq<nat>>, d: seq<seq<nat>>,
                        mode: Mode, open: bool, used: Option<nat>, data: seq<nat>)
    requires InRam(m0, rd) && Served(m0, m, rd, wr, d0, d, mode, open, used, data)
    requires |rd| < 16 || TypeOf(m0, rd) > 1
    ensures used == None && m == m0 && d == d0
  {
  }
}
