/**
 * One block request from its descriptor chain to the backing file and back: the header names
 * the sectors, the data go between the chain's buffers and the disk, and a status byte ends it.
 */
module VirtioBlock {
  import opened GuestMemory
  import opened DescriptorChains
  import opened VirtioCopy
  import opened Wrappers

  const SectorSize: nat := 512
  const HeaderSize: nat := 16

  // ---- Sectors ----

  ghost predicate Whole(ss: seq<seq<nat>>) { forall i :: 0 <= i < |ss| ==> |ss[i]| == SectorSize }

  /** The bytes of sectors in a row. */
  ghost function Joined(ss: seq<seq<nat>>): (s: seq<nat>)
    requires Whole(ss)
    ensures |s| == SectorSize * |ss|
  {
    if ss == [] then [] else Joined(ss[..|ss| - 1]) + ss[|ss| - 1]
  }

  /** The first n sectors of a buffer. */
  function Chunks(data: seq<nat>, n: nat): (ss: seq<seq<nat>>)
    requires SectorSize * n <= |data|
    ensures |ss| == n && Whole(ss)
  {
    seq(n, k requires 0 <= k < n => data[SectorSize * k..SectorSize * (k + 1)])
  }

  lemma {:induction false} ChunksJoined(data: seq<nat>, n: nat)
    requires SectorSize * n <= |data|
    ensures Joined(Chunks(data, n)) == data[..SectorSize * n]
    decreases n
  {
    if n > 0 {
      ChunksJoined(data, n - 1);
      assert Chunks(data, n)[..n - 1] == Chunks(data, n - 1);
      assert data[..SectorSize * n] == data[..SectorSize * (n - 1)] + data[SectorSize * (n - 1)..SectorSize * n];
    }
  }

  function Overwritten(disk: seq<seq<nat>>, first: nat, ss: seq<seq<nat>>): (r: seq<seq<nat>>)
    requires first + |ss| <= |disk|
    ensures |r| == |disk|
  {
    disk[..first] + ss + disk[first + |ss|..]
  }

  /** Sectors written are the sectors read next, however few are read, and no other sector changes. */
  lemma WrittenIsRead(disk: seq<seq<nat>>, first: nat, n: nat, data: seq<nat>, k: nat)
    requires SectorSize * n <= |data| && first + n <= |disk| && Whole(disk) && k <= n
    ensures var d := Overwritten(disk, first, Chunks(data, n));
            && Whole(d) && Joined(d[first..first + k]) == data[..SectorSize * k]
            && forall i :: 0 <= i < |d| && !(first <= i < first + n) ==> d[i] == disk[i]
  {
    hide Joined;
    var d := Overwritten(disk, first, Chunks(data, n));
    assert d[first..first + k] == Chunks(data, k);
    ChunksJoined(data, k);
  }

  lemma OneMoreSector(ss: seq<seq<nat>>, first: nat, k: nat)
    requires first + k < |ss| && Whole(ss)
    ensures Joined(ss[first..first + k + 1]) == Joined(ss[first..first + k]) + ss[first + k]
  {
    var t := ss[first..first + k + 1];
    assert t[..|t| - 1] == ss[first..first + k];
  }

  // ---- The backing file ----

  datatype Mode = ReadOnly | ReadWrite | Snapshot

  class BlockFile {
    const mode: Mode
    const open: bool // whether there is a file to read
    const nbSectors: nat
    // the file, sector by sector, and the sectors a snapshot has copied
    var file: seq<seq<nat>>
    var table: map<nat, seq<nat>>

    ghost predicate Valid()
      reads this
    {
      && |file| == nbSectors && Whole(file)
      && (forall i :: i in table ==> i < nbSectors && |table[i]| == SectorSize)
      && (mode != Snapshot ==> table == map[])
    }

    constructor (mode: Mode, open: bool, file: seq<seq<nat>>)
      requires Whole(file)
      ensures Valid() && this.mode == mode && this.open == open && this.file == file && Disk() == file
    {
      this.mode, this.open, this.file, this.table, nbSectors := mode, open, file, map[], |file|;
    }

    /** What the guest sees of the disk. */
    ghost function Disk(): (d: seq<seq<nat>>)
      requires Valid()
      reads this
      ensures |d| == nbSectors && Whole(d)
    {
      seq(nbSectors, i requires 0 <= i < nbSectors && Valid() reads this => if i in table then table[i] else file[i])
    }

    /** bf_read_async, which reads at once; a read past the end stops the program. */
    method ReadAsync(first: nat, buf: array<nat>, n: nat) returns (ret: int)
      requires Valid() && first + n <= nbSectors && SectorSize * n <= buf.Length
      modifies buf
      ensures ret == if open then 0 else -1
      ensures open ==> buf[..SectorSize * n] == Joined(Disk()[first..first + n])
      ensures !open ==> buf[..] == old(buf[..])
      ensures buf[SectorSize * n..] == old(buf[SectorSize * n..])
    {
      hide Joined, Disk;
      if !open {
        return -1;
      }
      ghost var d, was := Disk(), buf[..];
      var k := 0;
      assert d[first..first] == [];
      assert |Joined(d[first..first])| == 0;
      while k < n
        invariant k <= n && Valid() && d == Disk()
        invariant buf[..SectorSize * k] == Joined(d[first..first + k]) && buf[SectorSize * k..] == was[SectorSize * k..]
      {
        SectorIs(first + k);
        var s := if mode == Snapshot && first + k in table then table[first + k] else file[first + k];
        var at := SectorSize * k;
        TailOf(buf[..], was, at, SectorSize);
        CopySector(buf, at, s);
        assert SectorSize * (k + 1) == at + SectorSize;
        OneMoreSector(d, first, k);
        k := k + 1;
      }
      ret := 0;
    }

    lemma SectorIs(i: nat)
      requires Valid() && i < nbSectors
      ensures Disk()[i] == if i in table then table[i] else file[i]
    {
    }

    /** bf_write_async: refused by a read-only disk, and kept out of the file by a snapshot. */
    method WriteAsync(first: nat, buf: array<nat>, n: nat) returns (ret: int)
      requires Valid() && SectorSize * n <= buf.Length
      requires mode == ReadWrite ==> first + n <= nbSectors
      requires mode == Snapshot ==> first + n < 0x1_0000_0000
      modifies this`file, this`table
      ensures Valid() && (ret == 0 || ret == -1)
      ensures ret == 0 <==> Writable(mode, nbSectors, first, n)
      ensures Disk() == if ret == 0 then Overwritten(old(Disk()), first, Chunks(buf[..], n)) else old(Disk())
      ensures mode != ReadWrite ==> file == old(file)
    {
      hide Chunks;
      ghost var d, ss := Disk(), Chunks(buf[..], n);
      match mode
      case ReadOnly => return -1;
      case ReadWrite =>
        file := Overwritten(file, first, Chunks(buf[..], n));
        assert Disk() == Overwritten(d, first, ss);
        return 0;
      case Snapshot =>
        if first + n > nbSectors {
          return -1;
        }
        var k := 0;
        while k < n
          invariant k <= n && Valid() && file == old(file)
          invariant Disk() == Overwritten(d, first, ss[..k])
        {
          ChunkIs(buf[..], n, k);
          table := table[first + k := buf[SectorSize * k..SectorSize * (k + 1)]];
          NextSector(d, first, ss, k, Disk());
          k := k + 1;
        }
        assert ss[..n] == ss;
        return 0;
    }
  }

  lemma TailOf(s: seq<nat>, t: seq<nat>, x: nat, l: nat)
    requires x + l <= |s| == |t| && s[x..] == t[x..]
    ensures s[x + l..] == t[x + l..]
  {
    assert s[x + l..] == s[x..][l..] && t[x + l..] == t[x..][l..];
  }

  lemma ChunkIs(data: seq<nat>, n: nat, k: nat)
    requires SectorSize * n <= |data| && k < n
    ensures Chunks(data, n)[k] == data[SectorSize * k..SectorSize * (k + 1)]
  {
  }

  lemma NextSector(d: seq<seq<nat>>, first: nat, ss: seq<seq<nat>>, k: nat, d': seq<seq<nat>>)
    requires first + |ss| <= |d| == |d'| && k < |ss|
    requires d' == Overwritten(d, first, ss[..k])[first + k := ss[k]]
    ensures d' == Overwritten(d, first, ss[..k + 1])
  {
  }

  method CopySector(buf: array<nat>, at: nat, s: seq<nat>)
    requires |s| == SectorSize && at + SectorSize <= buf.Length
    modifies buf
    ensures buf[..at + SectorSize] == old(buf[..at]) + s && buf[at + SectorSize..] == old(buf[at + SectorSize..])
  {
    forall i | 0 <= i < SectorSize {
      buf[at + i] := s[i];
    }
  }

  // ---- One request ----

  const TypeIn: nat := 0
  const TypeOut: nat := 1

  /** The status byte: fine, or an I/O error. */
  function Status(ok: bool): nat { if ok then 0 else 1 }

  ghost predicate InRam(m: Flat, row: seq<nat>) { forall a :: a in row ==> a in m }

  /** The header stands at the front of what the request lets the device read. */
  ghost function Header(m: Flat, row: seq<nat>): (h: seq<nat>)
    requires InRam(m, row) && HeaderSize <= |row|
    ensures |h| == HeaderSize
  {
    Fetched(m, row[..HeaderSize])
  }

  ghost function TypeOf(m: Flat, row: seq<nat>): nat
    requires InRam(m, row) && HeaderSize <= |row|
  {
    Le(Header(m, row), 0, 4)
  }

  ghost function SectorNum(m: Flat, row: seq<nat>): nat
    requires InRam(m, row) && HeaderSize <= |row|
  {
    Le(Header(m, row), 8, 8)
  }

  /** What stands behind the header. */
  ghost function Payload(m: Flat, row: seq<nat>): (s: seq<nat>)
    requires InRam(m, row) && HeaderSize <= |row|
    ensures |s| == |row| - HeaderSize
  {
    Fetched(m, row[HeaderSize..])
  }

  /** What the device takes for granted: room for the status byte, and sectors the disk has. */
  ghost predicate Sensible(m: Flat, rd: seq<nat>, wr: seq<nat>, mode: Mode, nbSectors: nat)
    requires InRam(m, rd) && HeaderSize <= |rd|
  {
    var sector := SectorNum(m, rd);
    && (TypeOf(m, rd) == TypeIn ==> |wr| >= 1 && sector + (|wr| - 1) / SectorSize <= nbSectors)
    && (TypeOf(m, rd) == TypeOut ==>
          var n := (|rd| - HeaderSize) / SectorSize;
          && |wr| >= 1 && (mode == ReadWrite ==> sector + n <= nbSectors)
          && (mode == Snapshot ==> sector + n < 0x1_0000_0000))
  }

  /** A read: the sectors if there is a file, then whatever padding, then the status byte go into the writable row. */
  ghost predicate ReadServed(m0: Flat, m: Flat, wr: seq<nat>, d: seq<seq<nat>>, sector: nat, data: seq<nat>, ok: bool) {
    && |data| == |wr| >= 1 && Whole(d)
    && var n := (|wr| - 1) / SectorSize;
    && sector + n <= |d| && (ok ==> data[..SectorSize * n] == Joined(d[sector..sector + n]))
    && data[|wr| - 1] == Status(ok) && m == Stored(m0, wr, data)
  }

  /** A write: the whole sectors of the payload reach the disk unless it refuses, and the status tells. */
  ghost predicate WriteServed(m0: Flat, m: Flat, wr: seq<nat>, d0: seq<seq<nat>>, d: seq<seq<nat>>, sector: nat,
                              payload: seq<nat>, ok: bool) {
    var n := |payload| / SectorSize;
    && |wr| >= 1 && (ok ==> sector + n <= |d0|)
    && d == (if ok then Overwritten(d0, sector, Chunks(payload, n)) else d0)
    && m == Stored(m0, wr[..1], [Status(ok)])
  }

  /** The request is served, or left alone if it has no header or is of another type. */
  ghost predicate Served(m0: Flat, m: Flat, rd: seq<nat>, wr: seq<nat>, d0: seq<seq<nat>>, d: seq<seq<nat>>,
                         mode: Mode, open: bool, used: Option<nat>, data: seq<nat>)
    requires InRam(m0, rd)
  {
    if |rd| < HeaderSize || TypeOf(m0, rd) !in {TypeIn, TypeOut} then
      used.None? && m == m0 && d == d0
    else if TypeOf(m0, rd) == TypeIn then
      used == Some(|wr|) && d == d0 && ReadServed(m0, m, wr, d0, SectorNum(m0, rd), data, open)
    else
      used == Some(1) &&
      WriteServed(m0, m, wr, d0, d, SectorNum(m0, rd), Payload(m0, rd),
                  Writable(mode, |d0|, SectorNum(m0, rd), (|rd| - HeaderSize) / SectorSize))
  }

  /** Does the disk accept a write of n sectors? */
  predicate Writable(mode: Mode, nbSectors: nat, first: nat, n: nat) {
    mode == ReadWrite || (mode == Snapshot && first + n <= nbSectors)
  }

  lemma WritableIs(mode: Mode, nbSectors: nat, first: nat, n: nat)
    ensures Writable(mode, nbSectors, first, n) <==> mode == ReadWrite || (mode == Snapshot && first + n <= nbSectors)
  {
  }

  class BlockDevice {
    const copier: Copier
    const disk: BlockFile

    constructor (copier: Copier, disk: BlockFile)
      ensures this.copier == copier && this.disk == disk
    {
      this.copier, this.disk := copier, disk;
    }

    ghost predicate Ready(descIdx: nat, chain: seq<Desc>)
      reads copier.guest.ram, disk
    {
      copier.guest.Valid() && copier.Serves(descIdx, chain) && disk.Valid()
    }

    lemma RowsInRam(descIdx: nat, chain: seq<Desc>, w: bool)
      requires Ready(descIdx, chain)
      ensures InRam(copier.guest.Mem(), Addrs(Run(chain, w)))
    {
      hide *;
      ReadyIs(descIdx, chain);
      copier.ServesIs(descIdx, chain);
      RunInChain(copier.guest.Mem(), copier.table, copier.size, chain, w);
    }

    /** Chain and memory depend on the bytes of RAM only. */
    lemma MemIs(descIdx: nat, chain: seq<Desc>)
      requires copier.guest.Valid()
      ensures copier.Serves(descIdx, chain) <==>
                && Linked(copier.guest.Mem(), copier.table, copier.size, descIdx, chain)
                && Apart(copier.guest.Mem(), copier.table, copier.size, chain)
      ensures Framed(copier.guest.frames, |copier.guest.ram[..]|)
      ensures copier.guest.Mem() == FlatOf(copier.guest.frames, copier.guest.ram[..])
    {
      hide FlatOf, Framed, Linked, Apart;
    }

    lemma ReadyIs(descIdx: nat, chain: seq<Desc>)
      ensures Ready(descIdx, chain) <==> copier.guest.Valid() && copier.Serves(descIdx, chain) && disk.Valid()
    {
    }

    method ReadHeader(descIdx: nat, ghost chain: seq<Desc>) returns (ok: bool, kind: nat, sector: nat)
      requires Ready(descIdx, chain) && InRam(copier.guest.Mem(), Addrs(Run(chain, false)))
      modifies copier.guest.ram
      ensures copier.guest.ram[..] == old(copier.guest.ram[..])
      ensures ok <==> HeaderSize <= |Addrs(Run(chain, false))|
      ensures ok ==> kind == TypeOf(old(copier.guest.Mem()), Addrs(Run(chain, false)))
                     && sector == SectorNum(old(copier.guest.Mem()), Addrs(Run(chain, false)))
    {
      hide *;
      ReadyIs(descIdx, chain);
      var h := new nat[HeaderSize];
      ghost var row, was := Addrs(Run(chain, false)), h[..];
      MemIs(descIdx, chain);
      var ret := copier.MemcpyToFromQueue(h, descIdx, 0, HeaderSize, false, chain);
      MemIs(descIdx, chain);
      ok, kind, sector := ret >= 0, 0, 0;
      if ok {
        GatheredFront(copier.guest.Mem(), row, 0, HeaderSize, was, h[..]);
        HeaderIs(old(copier.guest.Mem()), row, h[..]);
        kind, sector := Le(h[..], 0, 4), Le(h[..], 8, 8);
      }
    }

    /** The read of n sectors, and virtio_block_req_end behind it. */
    method ServeRead(descIdx: nat, sector: nat, writeSize: nat, ghost chain: seq<Desc>) returns (ghost data: seq<nat>)
      requires Ready(descIdx, chain) && writeSize == |Addrs(Run(chain, true))| >= 1
      requires sector + (writeSize - 1) / SectorSize <= disk.nbSectors
      modifies copier.guest.ram
      ensures disk.Valid()
      ensures ReadServed(old(copier.guest.Mem()), copier.guest.Mem(), Addrs(Run(chain, true)), disk.Disk(), sector, data,
                         disk.open)
    {
      hide *;
      ReadyIs(descIdx, chain);
      ghost var row, m0, d := Addrs(Run(chain, true)), copier.guest.Mem(), disk.Disk();
      var buf := new nat[writeSize];
      SectorsFit(writeSize - 1);
      var n := (writeSize - 1) / SectorSize;
      var ret := disk.ReadAsync(sector, buf, n);
      ghost var got := buf[..];
      buf[writeSize - 1] := Status(ret >= 0);
      data := buf[..];
      assert data == got[writeSize - 1 := Status(disk.open)];
      ret := copier.MemcpyToFromQueue(buf, descIdx, 0, writeSize, true, chain);
      ScatteredWhole(m0, copier.guest.Mem(), row, data);
      assert d == disk.Disk();
      ReadIs(m0, copier.guest.Mem(), row, d, sector, got, data, disk.open);
    }

    /** The payload of a write, copied out of the chain. */
    method FetchPayload(descIdx: nat, readSize: nat, ghost chain: seq<Desc>) returns (buf: array<nat>)
      requires Ready(descIdx, chain) && HeaderSize <= readSize == |Addrs(Run(chain, false))|
      requires InRam(copier.guest.Mem(), Addrs(Run(chain, false)))
      modifies copier.guest.ram
      ensures fresh(buf) && copier.guest.ram[..] == old(copier.guest.ram[..])
      ensures buf[..] == Payload(old(copier.guest.Mem()), Addrs(Run(chain, false)))
    {
      hide *;
      ReadyIs(descIdx, chain);
      ghost var rd, m0 := Addrs(Run(chain, false)), copier.guest.Mem();
      var len := readSize - HeaderSize;
      buf := new nat[len];
      ghost var was := buf[..];
      MemIs(descIdx, chain);
      var _ := copier.MemcpyToFromQueue(buf, descIdx, HeaderSize, len, false, chain);
      MemIs(descIdx, chain);
      assert copier.guest.Mem() == m0;
      GatheredFront(m0, rd, HeaderSize, len, was, buf[..]);
      PayloadIs(m0, rd, buf[..]);
    }

    /** The write of the payload's sectors, and virtio_block_req_end behind it. */
    method ServeWrite(descIdx: nat, sector: nat, buf: array<nat>, ghost chain: seq<Desc>) returns (ok: bool)
      requires Ready(descIdx, chain) && buf != copier.guest.ram && |Addrs(Run(chain, true))| >= 1
      requires var n := buf.Length / SectorSize;
               && (disk.mode == ReadWrite ==> sector + n <= disk.nbSectors)
               && (disk.mode == Snapshot ==> sector + n < 0x1_0000_0000)
      modifies copier.guest.ram, disk
      ensures disk.Valid() && (disk.mode != ReadWrite ==> disk.file == old(disk.file))
      ensures ok <==> Writable(disk.mode, disk.nbSectors, sector, buf.Length / SectorSize)
      ensures WriteServed(old(copier.guest.Mem()), copier.guest.Mem(), Addrs(Run(chain, true)), old(disk.Disk()), disk.Disk(),
                          sector, buf[..], ok)
    {
      hide *;
      ReadyIs(descIdx, chain);
      ghost var wr, m0, d0 := Addrs(Run(chain, true)), copier.guest.Mem(), disk.Disk();
      SectorsFit(buf.Length);
      var ret := disk.WriteAsync(sector, buf, buf.Length / SectorSize);
      ok := ret >= 0;
      var status := new nat[1];
      status[0] := Status(ret >= 0);
      assert status[..] == [Status(ok)];
      ReadyIs(descIdx, chain);
      ghost var payload := buf[..];
      var _ := copier.MemcpyToFromQueue(status, descIdx, 0, 1, true, chain);
      assert buf[..] == payload;
      ScatteredFront(m0, copier.guest.Mem(), wr, status[..]);
      WritableIs(disk.mode, disk.nbSectors, sector, buf.Length / SectorSize);
      WriteIs(m0, copier.guest.Mem(), wr, d0, disk.Disk(), sector, payload, ok, status[..]);
    }

    /** virtio_block_recv_request, for a backing file that completes at once. */
    method RecvRequest(descIdx: nat, readSize: nat, writeSize: nat, ghost chain: seq<Desc>)
      returns (used: Option<nat>, ghost data: seq<nat>)
      requires Ready(descIdx, chain)
      requires readSize == |Addrs(Run(chain, false))| && writeSize == |Addrs(Run(chain, true))|
      requires InRam(copier.guest.Mem(), Addrs(Run(chain, false)))
      requires HeaderSize <= readSize ==>
                 Sensible(copier.guest.Mem(), Addrs(Run(chain, false)), Addrs(Run(chain, true)), disk.mode, disk.nbSectors)
      modifies copier.guest.ram, disk
      ensures disk.Valid()
      ensures Served(old(copier.guest.Mem()), copier.guest.Mem(), Addrs(Run(chain, false)), Addrs(Run(chain, true)),
                     old(disk.Disk()), disk.Disk(), disk.mode, disk.open, used, data)
      ensures disk.mode != ReadWrite ==> disk.file == old(disk.file)
    {
      hide *;
      ReadyIs(descIdx, chain);
      ghost var d0 := disk.Disk();
      data := [];
      ghost var rd, wr, m0 := Addrs(Run(chain, false)), Addrs(Run(chain, true)), copier.guest.Mem();
      MemIs(descIdx, chain);
      var ok, kind, sector := ReadHeader(descIdx, chain);
      MemIs(descIdx, chain);
      assert copier.guest.Mem() == m0;
      if !ok {
        ServedNot(m0, rd, wr, d0, disk.mode, disk.open, data);
        return None, data;
      }
      SensibleIs(m0, rd, wr, disk.mode, disk.nbSectors);
      ReadyIs(descIdx, chain);
      if kind == TypeIn {
        data := ServeRead(descIdx, sector, writeSize, chain);
        used := Some(writeSize);
        ServedRead(m0, copier.guest.Mem(), rd, wr, d0, disk.mode, disk.open, data);
      } else if kind == TypeOut {
        var buf := FetchPayload(descIdx, readSize, chain);
        MemIs(descIdx, chain);
        assert copier.guest.Mem() == m0;
        ReadyIs(descIdx, chain);
        var _ := ServeWrite(descIdx, sector, buf, chain);
        used := Some(1);
        ServedWrite(m0, copier.guest.Mem(), rd, wr, d0, disk.Disk(), disk.mode, disk.open, data);
      } else {
        used := None;
        ServedNot(m0, rd, wr, d0, disk.mode, disk.open, data);
      }
    }

    /** What queue_notify does with one chain: it measures it and, unless it is ill-formed, hands it over. */
    method Notify(descIdx: nat, ghost chain: seq<Desc>)
      returns (ret: int, used: Option<nat>, ghost data: seq<nat>)
      requires Ready(descIdx, chain) && InRam(copier.guest.Mem(), Addrs(Run(chain, false)))
      requires HeaderSize <= |Addrs(Run(chain, false))| ==>
                 Sensible(copier.guest.Mem(), Addrs(Run(chain, false)), Addrs(Run(chain, true)), disk.mode, disk.nbSectors)
      modifies copier.guest.ram, disk
      ensures disk.Valid() && (disk.mode != ReadWrite ==> disk.file == old(disk.file))
      ensures ret == if WellFormed(chain) then 0 else -1
      ensures ret != 0 ==> used.None? && copier.guest.Mem() == old(copier.guest.Mem()) && disk.Disk() == old(disk.Disk())
      ensures ret == 0 ==>
                Served(old(copier.guest.Mem()), copier.guest.Mem(), Addrs(Run(chain, false)), Addrs(Run(chain, true)),
                       old(disk.Disk()), disk.Disk(), disk.mode, disk.open, used, data)
    {
      hide *;
      ReadyIs(descIdx, chain);
      MemIs(descIdx, chain);
      WellFormedIs(chain);
      var readSize, writeSize;
      ret, readSize, writeSize := copier.GetDescRwSize(descIdx, chain);
      used, data := None, [];
      if ret == 0 {
        used, data := RecvRequest(descIdx, readSize, writeSize, chain);
      }
    }
  }

  /** No readable descriptor follows a writable one. */
  ghost predicate WellFormed(chain: seq<Desc>) {
    var n := |Prefix(chain, false)|;
    Prefix(chain[n..], true) == chain[n..]
  }

  lemma WellFormedIs(chain: seq<Desc>)
    ensures var n := |Prefix(chain, false)|;
            && (WellFormed(chain) <==> Prefix(chain[n..], true) == chain[n..])
            && Run(chain, false) == Prefix(chain, false)
            && (WellFormed(chain) ==> Run(chain, true) == chain[n..])
  {
    hide IsWrite, Prefix, SkipReadable;
    var n := |Prefix(chain, false)|;
    PrefixShape(chain, false);
    SkipTo(chain, n);
  }

  lemma ServedNot(m: Flat, rd: seq<nat>, wr: seq<nat>, d: seq<seq<nat>>, mode: Mode, open: bool, data: seq<nat>)
    requires InRam(m, rd) && (|rd| < HeaderSize || TypeOf(m, rd) !in {TypeIn, TypeOut})
    ensures Served(m, m, rd, wr, d, d, mode, open, None, data)
  {
    hide TypeOf;
  }

  lemma ServedRead(m0: Flat, m: Flat, rd: seq<nat>, wr: seq<nat>, d: seq<seq<nat>>, mode: Mode, open: bool, data: seq<nat>)
    requires InRam(m0, rd) && |rd| >= HeaderSize && TypeOf(m0, rd) == TypeIn
    requires ReadServed(m0, m, wr, d, SectorNum(m0, rd), data, open)
    ensures Served(m0, m, rd, wr, d, d, mode, open, Some(|wr|), data)
  {
    hide TypeOf, SectorNum, ReadServed;
  }

  lemma ServedWrite(m0: Flat, m: Flat, rd: seq<nat>, wr: seq<nat>, d0: seq<seq<nat>>, d: seq<seq<nat>>,
                    mode: Mode, open: bool, data: seq<nat>)
    requires InRam(m0, rd) && |rd| >= HeaderSize && TypeOf(m0, rd) == TypeOut
    requires WriteServed(m0, m, wr, d0, d, SectorNum(m0, rd), Payload(m0, rd),
                         Writable(mode, |d0|, SectorNum(m0, rd), (|rd| - HeaderSize) / SectorSize))
    ensures Served(m0, m, rd, wr, d0, d, mode, open, Some(1), data)
  {
    hide TypeOf, SectorNum, WriteServed, Writable, Payload;
  }

  lemma SensibleIs(m: Flat, rd: seq<nat>, wr: seq<nat>, mode: Mode, nbSectors: nat)
    requires InRam(m, rd) && HeaderSize <= |rd|
    ensures Sensible(m, rd, wr, mode, nbSectors) <==>
              var sector := SectorNum(m, rd);
              && (TypeOf(m, rd) == TypeIn ==> |wr| >= 1 && sector + (|wr| - 1) / SectorSize <= nbSectors)
              && (TypeOf(m, rd) == TypeOut ==>
                    var n := (|rd| - HeaderSize) / SectorSize;
                    && |wr| >= 1 && (mode == ReadWrite ==> sector + n <= nbSectors)
                    && (mode == Snapshot ==> sector + n < 0x1_0000_0000))
  {
    hide TypeOf, SectorNum;
  }

  lemma GatheredFront(m: Flat, row: seq<nat>, offset: nat, count: nat, was: seq<nat>, now: seq<nat>)
    requires Gathered(m, row, offset, count, was, now) && offset + count <= |row| && |now| == count && InRam(m, row)
    ensures now == Fetched(m, row[offset..offset + count])
  {
    assert now[..count] == now;
  }

  lemma HeaderIs(m: Flat, row: seq<nat>, h: seq<nat>)
    requires InRam(m, row) && HeaderSize <= |row| && h == Fetched(m, row[0..HeaderSize])
    ensures |h| == 16 && Le(h, 0, 4) == TypeOf(m, row) && Le(h, 8, 8) == SectorNum(m, row)
  {
    hide Le;
  }

  lemma PayloadIs(m: Flat, row: seq<nat>, s: seq<nat>)
    requires InRam(m, row) && HeaderSize <= |row| && s == Fetched(m, row[HeaderSize..HeaderSize + (|row| - HeaderSize)])
    ensures s == Payload(m, row)
  {
    assert row[HeaderSize..HeaderSize + (|row| - HeaderSize)] == row[HeaderSize..];
  }

  lemma SectorsFit(len: nat)
    ensures SectorSize == 512 && SectorSize * (len / SectorSize) <= len
  {
  }

  lemma FrontOf(s: seq<nat>, k: nat, v: nat)
    requires k < |s|
    ensures s[|s| - 1 := v][..k] == s[..k]
  {
  }

  lemma ScatteredWhole(m0: Flat, m: Flat, row: seq<nat>, data: seq<nat>)
    requires Scattered(m0, m, row, 0, |row|, data) && |data| == |row| >= 1
    ensures m == Stored(m0, row, data)
  {
    assert row[0..|row|] == row && data[..|row|] == data;
  }

  lemma ScatteredFront(m0: Flat, m: Flat, row: seq<nat>, data: seq<nat>)
    requires Scattered(m0, m, row, 0, 1, data) && |data| == 1 <= |row|
    ensures m == Stored(m0, row[..1], data)
  {
    assert row[0..1] == row[..1] && data[..1] == data;
  }

  lemma ReadIs(m0: Flat, m: Flat, wr: seq<nat>, d: seq<seq<nat>>, sector: nat, got: seq<nat>, data: seq<nat>,
               ok: bool)
    requires |got| == |wr| >= 1 && Whole(d) && sector + (|wr| - 1) / SectorSize <= |d|
    requires var n := (|wr| - 1) / SectorSize;
             SectorSize * n <= |wr| && (ok ==> got[..SectorSize * n] == Joined(d[sector..sector + n]))
    requires data == got[|wr| - 1 := Status(ok)] && m == Stored(m0, wr, data)
    ensures ReadServed(m0, m, wr, d, sector, data, ok)
  {
    hide Joined, Stored;
    SectorsFit(|wr| - 1);
    FrontOf(got, SectorSize * ((|wr| - 1) / SectorSize), Status(ok));
  }

  lemma WriteIs(m0: Flat, m: Flat, wr: seq<nat>, d0: seq<seq<nat>>, d: seq<seq<nat>>, sector: nat, payload: seq<nat>,
                ok: bool, status: seq<nat>)
    requires |wr| >= 1 && status == [Status(ok)] && m == Stored(m0, wr[..1], status)
    requires SectorSize * (|payload| / SectorSize) <= |payload|
    requires ok ==> sector + |payload| / SectorSize <= |d0|
    requires d == if ok then Overwritten(d0, sector, Chunks(payload, |payload| / SectorSize)) else d0
    ensures WriteServed(m0, m, wr, d0, d, sector, payload, ok)
  {
    hide Stored, Overwritten, Chunks;
  }

  lemma RunInChain(m: Flat, table: nat, size: nat, chain: seq<Desc>, w: bool)
    requires Apart(m, table, size, chain)
    ensures InRam(m, Addrs(Run(chain, w)))
  {
    hide IsWrite, Addrs;
    RunWithin(chain, w);
    forall d | d in Run(chain, w) ensures Covers(m, d.addr, d.len) {
      assert d in chain;
    }
    RunCovered(m, Run(chain, w));
  }

  lemma {:induction false} SkipWithin(chain: seq<Desc>)
    ensures forall d :: d in SkipReadable(chain) ==> d in chain
  {
    if chain != [] {
      SkipWithin(chain[1..]);
    }
  }

  lemma RunWithin(chain: seq<Desc>, w: bool)
    ensures forall d :: d in Run(chain, w) ==> d in chain
  {
    hide IsWrite;
    SkipWithin(chain);
    PrefixShape(if w then SkipReadable(chain) else chain, w);
  }

  // ---- A write, then a read ----

  ghost predicate Outside(row: seq<nat>, lo: nat, hi: nat) { forall a :: a in row ==> a < lo || hi <= a }

  /** Bytes stored outside the table disturb no chain in it. */
  lemma {:induction false} StoredKeeps(m: Flat, addrs: seq<nat>, bytes: seq<nat>, table: nat, size: nat, head: nat, chain: seq<Desc>)
    requires |addrs| == |bytes| && InRam(m, addrs)
    requires Outside(addrs, table, table + DescSize * size)
    requires Linked(m, table, size, head, chain) && Apart(m, table, size, chain)
    ensures Linked(Stored(m, addrs, bytes), table, size, head, chain) && Apart(Stored(m, addrs, bytes), table, size, chain)
    decreases |addrs|
  {
    hide Linked, Apart;
    if addrs != [] {
      var m1 := m[addrs[0] := bytes[0]];
      assert addrs[0] in addrs && addrs[0] in m;
      assert forall a :: a in addrs[1..] ==> a in addrs;
      assert m1 == Overlay(m, addrs[0], [bytes[0]]);
      LinkedKept(m, table, size, head, chain, addrs[0], [bytes[0]]);
      ApartKept(m, table, size, chain, addrs[0], [bytes[0]]);
      StoredKeeps(m1, addrs[1..], bytes[1..], table, size, head, chain);
    }
  }

  /** The device writes nowhere into the table. */
  lemma RowApart(m: Flat, table: nat, size: nat, chain: seq<Desc>)
    requires Apart(m, table, size, chain)
    ensures Outside(Addrs(Run(chain, true)), table, table + DescSize * size)
  {
    hide IsWrite, Addrs, Run, Outside;
    RunWithin(chain, true);
    RunWritable(chain);
    AddrsApart(Run(chain, true), table, table + DescSize * size);
  }

  lemma RunWritable(chain: seq<Desc>)
    ensures forall d :: d in Run(chain, true) ==> IsWrite(d)
  {
    hide IsWrite;
    var rest := SkipReadable(chain);
    PrefixShape(rest, true);
    forall d | d in Prefix(rest, true) ensures IsWrite(d) {
      var k :| 0 <= k < |Prefix(rest, true)| && Prefix(rest, true)[k] == d;
      assert d == rest[k];
    }
  }

  lemma {:induction false} AddrsApart(run: seq<Desc>, lo: nat, hi: nat)
    requires forall d :: d in run ==> d.addr + d.len <= lo || hi <= d.addr
    ensures Outside(Addrs(run), lo, hi)
    decreases |run|
  {
    if run != [] {
      AddrsApart(run[1..], lo, hi);
    }
  }

  lemma {:induction false} JoinedFront(ss: seq<seq<nat>>, k: nat)
    requires Whole(ss) && k <= |ss|
    ensures Joined(ss)[..SectorSize * k] == Joined(ss[..k])
    decreases |ss|
  {
    if k == |ss| {
      assert ss[..k] == ss;
    } else {
      var front := ss[..|ss| - 1];
      JoinedFront(front, k);
      assert front[..k] == ss[..k];
    }
  }

  /** Memory that agrees on the row holds the same request. */
  lemma SameRequest(m0: Flat, m: Flat, row: seq<nat>)
    requires InRam(m0, row) && (forall a :: a in row ==> a in m && m[a] == m0[a]) && HeaderSize <= |row|
    ensures InRam(m, row) && TypeOf(m, row) == TypeOf(m0, row) && SectorNum(m, row) == SectorNum(m0, row)
  {
    hide Le;
    assert Header(m, row) == Header(m0, row);
  }

  /** The first of the sectors a read delivers are those of the payload written before. */
  lemma ReadBack(d0: seq<seq<nat>>, first: nat, n: nat, payload: seq<nat>, got: seq<nat>, n': nat, k: nat)
    requires SectorSize * n <= |payload| && first + n <= |d0| && first + n' <= |d0| && Whole(d0)
    requires var d := Overwritten(d0, first, Chunks(payload, n)); Whole(d) && got == Joined(d[first..first + n'])
    requires k <= n && k <= n'
    ensures SectorSize * k <= |got| && SectorSize * k <= |payload| && got[..SectorSize * k] == payload[..SectorSize * k]
  {
    hide Joined, Overwritten, Chunks;
    var d := Overwritten(d0, first, Chunks(payload, n));
    WrittenIsRead(d0, first, n, payload, k);
    JoinedFront(d[first..first + n'], k);
    assert d[first..first + n'][..k] == d[first..first + k];
  }

  /** Writing to the disk and reading the same sectors back, a whole round trip of two requests. */
  method WriteThenRead(dev: BlockDevice, h1: nat, ghost c1: seq<Desc>, h2: nat, ghost c2: seq<Desc>)
    returns (ghost data: seq<nat>)
    requires dev.Ready(h1, c1) && dev.Ready(h2, c2) && WellFormed(c1) && WellFormed(c2)
    requires InRam(dev.copier.guest.Mem(), Addrs(Run(c1, false))) && InRam(dev.copier.guest.Mem(), Addrs(Run(c2, false)))
    requires HeaderSize <= |Addrs(Run(c1, false))| && HeaderSize <= |Addrs(Run(c2, false))|
    requires var m, rd1, rd2 := dev.copier.guest.Mem(), Addrs(Run(c1, false)), Addrs(Run(c2, false));
             var sector := SectorNum(m, rd1);
             && TypeOf(m, rd1) == TypeOut && TypeOf(m, rd2) == TypeIn && SectorNum(m, rd2) == sector
             && Sensible(m, rd1, Addrs(Run(c1, true)), dev.disk.mode, dev.disk.nbSectors)
             && Sensible(m, rd2, Addrs(Run(c2, true)), dev.disk.mode, dev.disk.nbSectors)
             && Writable(dev.disk.mode, dev.disk.nbSectors, sector, (|rd1| - HeaderSize) / SectorSize)
    requires |Addrs(Run(c1, true))| >= 1 && Addrs(Run(c1, true))[0] !in Addrs(Run(c2, false)) && dev.disk.open
    modifies dev.copier.guest.ram, dev.disk
    ensures var m0, rd1, wr2 := old(dev.copier.guest.Mem()), Addrs(Run(c1, false)), Addrs(Run(c2, true));
            && |data| == |wr2| >= 1 && data[|wr2| - 1] == Status(true)
            && dev.copier.guest.Mem() == Stored(Stored(m0, Addrs(Run(c1, true))[..1], [Status(true)]), wr2, data)
            && forall k :: 0 <= k <= (|rd1| - HeaderSize) / SectorSize && k <= (|wr2| - 1) / SectorSize ==>
                 SectorSize * k <= |data| && data[..SectorSize * k] == Payload(m0, rd1)[..SectorSize * k]
  {
    hide *;
    ghost var rd1, wr1, rd2, wr2 := Addrs(Run(c1, false)), Addrs(Run(c1, true)), Addrs(Run(c2, false)), Addrs(Run(c2, true));
    dev.ReadyIs(h1, c1);
    ghost var m0, d0 := dev.copier.guest.Mem(), dev.disk.Disk();
    dev.ReadyIs(h2, c2);
    dev.MemIs(h1, c1);
    dev.MemIs(h2, c2);
    dev.RowsInRam(h1, c1, true);
    RowApart(m0, dev.copier.table, dev.copier.size, c1);
    var ret, used;
    ret, used, data := dev.Notify(h1, c1);
    ghost var m1, d1 := dev.copier.guest.Mem(), dev.disk.Disk();
    AfterWrite(m0, m1, rd1, wr1, d0, d1, dev.disk.mode, dev.disk.open, used, data);
    StoredFirst(m0, wr1, dev.copier.table, dev.copier.size, h2, c2, rd2);
    SameRequest(m0, m1, rd2);
    SensibleIs(m0, rd2, wr2, dev.disk.mode, dev.disk.nbSectors);
    SensibleIs(m1, rd2, wr2, dev.disk.mode, dev.disk.nbSectors);
    dev.MemIs(h2, c2);
    dev.ReadyIs(h2, c2);
    ret, used, data := dev.Notify(h2, c2);
    RoundTrip(m0, rd1, m1, dev.copier.guest.Mem(), rd2, wr2, d0, d1, dev.disk.Disk(), dev.disk.mode, dev.disk.open, used, data);
  }

  lemma AfterWrite(m0: Flat, m: Flat, rd: seq<nat>, wr: seq<nat>, d0: seq<seq<nat>>, d: seq<seq<nat>>,
                   mode: Mode, open: bool, used: Option<nat>, data: seq<nat>)
    requires InRam(m0, rd) && HeaderSize <= |rd| && Served(m0, m, rd, wr, d0, d, mode, open, used, data)
    requires TypeOf(m0, rd) == TypeOut && Writable(mode, |d0|, SectorNum(m0, rd), (|rd| - HeaderSize) / SectorSize)
    ensures var n := (|rd| - HeaderSize) / SectorSize;
            && |wr| >= 1 && m == Stored(m0, wr[..1], [Status(true)])
            && SectorNum(m0, rd) + n <= |d0| && SectorSize * n <= |Payload(m0, rd)|
            && d == Overwritten(d0, SectorNum(m0, rd), Chunks(Payload(m0, rd), n))
  {
    hide Stored, Overwritten, Chunks, SectorNum, TypeOf, Writable;
  }

  lemma AfterRead(m0: Flat, m: Flat, rd: seq<nat>, wr: seq<nat>, d0: seq<seq<nat>>, d: seq<seq<nat>>,
                  mode: Mode, used: Option<nat>, data: seq<nat>)
    requires InRam(m0, rd) && HeaderSize <= |rd| && Served(m0, m, rd, wr, d0, d, mode, true, used, data)
    requires TypeOf(m0, rd) == TypeIn
    ensures |data| == |wr| >= 1 && data[|wr| - 1] == Status(true) && m == Stored(m0, wr, data)
    ensures var n := (|wr| - 1) / SectorSize;
            && Whole(d0) && SectorNum(m0, rd) + n <= |d0| && SectorSize * n <= |data|
            && data[..SectorSize * n] == Joined(d0[SectorNum(m0, rd)..SectorNum(m0, rd) + n])
  {
    hide Stored, Joined, SectorNum, TypeOf;
  }

  /** One byte stored where the device may write: no chain and no other row is disturbed. */
  lemma StoredFirst(m: Flat, wr: seq<nat>, table: nat, size: nat, head: nat, chain: seq<Desc>, row: seq<nat>)
    requires |wr| >= 1 && InRam(m, wr) && Outside(wr, table, table + DescSize * size) && wr[0] !in row && InRam(m, row)
    requires Linked(m, table, size, head, chain) && Apart(m, table, size, chain)
    ensures var m1 := Stored(m, wr[..1], [Status(true)]);
            && Linked(m1, table, size, head, chain) && Apart(m1, table, size, chain)
            && forall a :: a in row ==> a in m1 && m1[a] == m[a]
  {
    hide Linked, Apart;
    var one, status := wr[..1], [Status(true)];
    assert one == [wr[0]] && wr[0] in wr;
    StoredKeeps(m, one, status, table, size, head, chain);
    assert one[1..] == [] && status[1..] == [];
    assert Stored(m, one, status) == m[wr[0] := Status(true)];
  }

  lemma RoundTrip(m0: Flat, rd1: seq<nat>, m1: Flat, m2: Flat, rd2: seq<nat>, wr2: seq<nat>,
                  d0: seq<seq<nat>>, d1: seq<seq<nat>>, d2: seq<seq<nat>>, mode: Mode, open: bool,
                  used: Option<nat>, data: seq<nat>)
    requires InRam(m0, rd1) && HeaderSize <= |rd1| && InRam(m1, rd2) && HeaderSize <= |rd2| && open && Whole(d0)
    requires var n := (|rd1| - HeaderSize) / SectorSize;
             && SectorNum(m0, rd1) + n <= |d0| && SectorSize * n <= |Payload(m0, rd1)|
             && d1 == Overwritten(d0, SectorNum(m0, rd1), Chunks(Payload(m0, rd1), n))
    requires Served(m1, m2, rd2, wr2, d1, d2, mode, open, used, data)
    requires TypeOf(m1, rd2) == TypeIn && SectorNum(m1, rd2) == SectorNum(m0, rd1)
    ensures |data| == |wr2| >= 1 && data[|wr2| - 1] == Status(true) && m2 == Stored(m1, wr2, data)
    ensures forall k :: 0 <= k <= (|rd1| - HeaderSize) / SectorSize && k <= (|wr2| - 1) / SectorSize ==>
              SectorSize * k <= |data| && SectorSize * k <= |Payload(m0, rd1)|
              && data[..SectorSize * k] == Payload(m0, rd1)[..SectorSize * k]
  {
    hide Stored, Joined, Overwritten, Chunks, Payload, SectorNum, TypeOf, Served, InRam, Whole;
    AfterRead(m1, m2, rd2, wr2, d1, d2, mode, used, data);
    var n, n' := (|rd1| - HeaderSize) / SectorSize, (|wr2| - 1) / SectorSize;
    forall k | 0 <= k <= n && k <= n'
      ensures SectorSize * k <= |data| && SectorSize * k <= |Payload(m0, rd1)|
              && data[..SectorSize * k] == Payload(m0, rd1)[..SectorSize * k]
    {
      ReadFront(d0, SectorNum(m0, rd1), n, Payload(m0, rd1), d1, data, n', k);
    }
  }

  lemma ReadFront(d0: seq<seq<nat>>, first: nat, n: nat, payload: seq<nat>, d: seq<seq<nat>>, data: seq<nat>, n': nat, k: nat)
    requires SectorSize * n <= |payload| && first + n <= |d0| && first + n' <= |d| == |d0| && Whole(d0)
    requires d == Overwritten(d0, first, Chunks(payload, n)) && Whole(d) && SectorSize * n' <= |data|
    requires data[..SectorSize * n'] == Joined(d[first..first + n']) && k <= n && k <= n'
    ensures SectorSize * k <= |data| && SectorSize * k <= |payload| && data[..SectorSize * k] == payload[..SectorSize * k]
  {
    hide Joined, Overwritten, Chunks, Whole;
    ReadBack(d0, first, n, payload, data[..SectorSize * n'], n', k);
    assert data[..SectorSize * n'][..SectorSize * k] == data[..SectorSize * k];
  }
}
