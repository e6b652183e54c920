/**
 * Ring and chain together: a block request is taken from the ring with the header its chain
 * holds, completes now or later, and by the time its head is in the used ring its chain holds
 * the data and the status byte.
 */
module VirtioController {
  import opened Wrappers
  import opened GuestMemory
  import opened DescriptorChains
  import opened VirtioBlock
  import Rings = VirtioRings

  /** The chain is a well-formed request of this kind and size. */
  ghost predicate Fits(m: Flat, chain: seq<Desc>, r: Rings.Request) {
    var rd, wr := Addrs(Run(chain, false)), Addrs(Run(chain, true));
    && WellFormed(chain) && InRam(m, rd) && HeaderSize <= |rd|
    && TypeOf(m, rd) == (if r.out then TypeOut else TypeIn) && r.writeSize == |wr| >= 1
  }

  class Controller {
    const q: Rings.BlockQueue
    const dev: BlockDevice
    // what the backend was asked for, of the request in flight
    var sector: nat
    var payload: array<nat>

    constructor (q: Rings.BlockQueue, dev: BlockDevice)
      ensures this.q == q && this.dev == dev && fresh(payload)
    {
      this.q, this.dev, sector := q, dev, 0;
      payload := new nat[0];
    }

    ghost predicate Valid()
      reads this, q, q.availRing, q.usedRing, dev.copier.guest.ram, dev.disk
    {
      && q.Settled() && dev.copier.guest.Valid() && dev.disk.Valid()
      && q.availRing != dev.copier.guest.ram && payload != dev.copier.guest.ram && payload != q.availRing
    }

    ghost function Mem(): Flat
      requires dev.copier.guest.Valid()
      reads dev.copier.guest.ram
    {
      dev.copier.guest.Mem()
    }

    lemma ValidIs()
      ensures Valid() <==>
                && q.Settled() && dev.copier.guest.Valid() && dev.disk.Valid()
                && q.availRing != dev.copier.guest.ram && payload != dev.copier.guest.ram && payload != q.availRing
      ensures dev.copier.guest.Valid() ==> Mem() == dev.copier.guest.Mem()
    {
      hide Rings.BlockQueue.Settled, Guest.Valid, BlockFile.Valid;
    }

    /** What the driver must have made available for the next request to be served. */
    ghost predicate Takes(descIdx: nat, readSize: nat, writeSize: nat, chain: seq<Desc>)
      reads this, q, q.availRing, q.usedRing, dev.copier.guest.ram, dev.disk
    {
      var rd, wr := Addrs(Run(chain, false)), Addrs(Run(chain, true));
      && Valid() && q.accepted < |q.submitted| && descIdx == q.submitted[q.accepted].head
      && dev.Ready(descIdx, chain) && Fits(Mem(), chain, q.submitted[q.accepted])
      && readSize == |rd| >= HeaderSize && writeSize == |wr| && InRam(Mem(), rd)
      && Sensible(Mem(), rd, wr, dev.disk.mode, dev.disk.nbSectors)
    }

    lemma TakesIs(descIdx: nat, readSize: nat, writeSize: nat, chain: seq<Desc>)
      requires Takes(descIdx, readSize, writeSize, chain)
      ensures var rd, wr, m := Addrs(Run(chain, false)), Addrs(Run(chain, true)), Mem();
              && Valid() && q.accepted < |q.submitted| && descIdx == q.submitted[q.accepted].head
              && dev.Ready(descIdx, chain) && readSize == |rd| >= HeaderSize && writeSize == |wr| >= 1 && InRam(m, rd)
              && Sensible(m, rd, wr, dev.disk.mode, dev.disk.nbSectors)
              && TypeOf(m, rd) == (if q.submitted[q.accepted].out then TypeOut else TypeIn)
              && q.submitted[q.accepted].writeSize == |wr|
              && Rings.Answer(q.submitted[q.accepted]).len == (if q.submitted[q.accepted].out then 1 else |wr|)
    {
      hide Valid, BlockDevice.Ready, Sensible, TypeOf, WellFormed, InRam, Addrs;
    }

    lemma KindDiffers()
      ensures TypeIn != TypeOut
    {
    }

    /** A request the backend will complete by a callback: header and payload are taken from the chain. */
    method RecvLater(descIdx: nat, readSize: nat, writeSize: nat, ghost chain: seq<Desc>)
      requires Takes(descIdx, readSize, writeSize, chain) && !q.reqInProgress
      modifies this`sector, this`payload, dev.copier.guest.ram
      modifies q`usedIdx, q`used, q`intStatus, q`reqInProgress, q`req, q`accepted, q.usedRing
      ensures Valid() && q.reqInProgress && q.accepted == old(q.accepted) + 1 && q.used == old(q.used)
      ensures dev.copier.guest.ram[..] == old(dev.copier.guest.ram[..])
      ensures q.req == q.submitted[old(q.accepted)]
      ensures sector == SectorNum(old(Mem()), Addrs(Run(chain, false)))
      ensures q.req.out ==> payload[..] == Payload(old(Mem()), Addrs(Run(chain, false)))
    {
      hide *;
      TakesIs(descIdx, readSize, writeSize, chain);
      ValidIs();
      KindDiffers();
      ghost var m0 := dev.copier.guest.Mem();
      dev.ReadyIs(descIdx, chain);
      dev.MemIs(descIdx, chain);
      var ok, kind, s := dev.ReadHeader(descIdx, chain);
      dev.MemIs(descIdx, chain);
      assert dev.copier.guest.Mem() == m0;
      dev.ReadyIs(descIdx, chain);
      sector := s;
      if kind == TypeOut {
        payload := dev.FetchPayload(descIdx, readSize, chain);
      }
      var ret := q.BlockRecvRequest(descIdx, true);
      ValidIs();
    }

    /** A request that completes at once, ring and chain. */
    method RecvNow(descIdx: nat, readSize: nat, writeSize: nat, ghost chain: seq<Desc>) returns (ghost data: seq<nat>)
      requires Takes(descIdx, readSize, writeSize, chain) && !q.reqInProgress
      modifies dev.copier.guest.ram, dev.disk
      modifies q`usedIdx, q`used, q`intStatus, q`reqInProgress, q`req, q`accepted, q.usedRing
      ensures Valid() && !q.reqInProgress && q.accepted == old(q.accepted) + 1
      ensures dev.disk.mode != ReadWrite ==> dev.disk.file == old(dev.disk.file)
      ensures var r := q.submitted[old(q.accepted)];
              && q.used == old(q.used) + [Rings.Answer(r)]
              && Served(old(Mem()), Mem(), Addrs(Run(chain, false)), Addrs(Run(chain, true)), old(dev.disk.Disk()), dev.disk.Disk(),
                        dev.disk.mode, dev.disk.open, Some(Rings.Answer(r).len), data)
    {
      hide *;
      TakesIs(descIdx, readSize, writeSize, chain);
      ValidIs();
      KindDiffers();
      ghost var m0, d0, rd, wr := dev.copier.guest.Mem(), dev.disk.Disk(), Addrs(Run(chain, false)), Addrs(Run(chain, true));
      var used;
      used, data := dev.RecvRequest(descIdx, readSize, writeSize, chain);
      ServedUsed(m0, dev.copier.guest.Mem(), rd, wr, d0, dev.disk.Disk(), dev.disk.mode, dev.disk.open, used, data);
      var ret := q.BlockRecvRequest(descIdx, false);
      ValidIs();
    }

    /** virtio_block_recv_request with ring and chain; later says whether the backend calls back. */
    method Recv(descIdx: nat, readSize: nat, writeSize: nat, later: bool, ghost chain: seq<Desc>)
      returns (ret: int, ghost data: seq<nat>)
      requires Takes(descIdx, readSize, writeSize, chain)
      modifies this`sector, this`payload, dev.copier.guest.ram, dev.disk
      modifies q`usedIdx, q`used, q`intStatus, q`reqInProgress, q`req, q`accepted, q.usedRing
      ensures Valid() && ret == (if old(q.reqInProgress) then -1 else 0)
      ensures q.accepted == old(q.accepted) + (if ret == 0 then 1 else 0)
      ensures ret != 0 || later ==> Mem() == old(Mem()) && dev.disk.Disk() == old(dev.disk.Disk()) && q.used == old(q.used)
      ensures q.reqInProgress == (ret != 0 || later)
      ensures ret == 0 && later ==>
                && q.req == q.submitted[old(q.accepted)]
                && sector == SectorNum(old(Mem()), Addrs(Run(chain, false)))
                && (q.req.out ==> payload[..] == Payload(old(Mem()), Addrs(Run(chain, false))))
      ensures ret == 0 && !later ==>
                var r := q.submitted[old(q.accepted)];
                && q.used == old(q.used) + [Rings.Answer(r)]
                && Served(old(Mem()), Mem(), Addrs(Run(chain, false)), Addrs(Run(chain, true)), old(dev.disk.Disk()), dev.disk.Disk(),
                          dev.disk.mode, dev.disk.open, Some(Rings.Answer(r).len), data)
    {
      hide *;
      TakesIs(descIdx, readSize, writeSize, chain);
      ValidIs();
      data := [];
      if q.reqInProgress {
        return -1, data;
      }
      dev.MemIs(descIdx, chain);
      if later {
        RecvLater(descIdx, readSize, writeSize, chain);
        ValidIs();
        dev.MemIs(descIdx, chain);
      } else {
        data := RecvNow(descIdx, readSize, writeSize, chain);
      }
      ret := 0;
    }

    /** What the callback relies on: the chain of the request in flight stands, and the disk has its sectors. */
    ghost predicate Awaits(chain: seq<Desc>)
      reads this, q, q.availRing, q.usedRing, dev.copier.guest.ram, dev.disk, payload
    {
      var wr := Addrs(Run(chain, true));
      && Valid() && q.reqInProgress && dev.Ready(q.req.head, chain) && q.req.writeSize == |wr| >= 1
      && (if q.req.out then
            var n := payload.Length / SectorSize;
            && (dev.disk.mode == ReadWrite ==> sector + n <= dev.disk.nbSectors)
            && (dev.disk.mode == Snapshot ==> sector + n < 0x1_0000_0000)
          else sector + (|wr| - 1) / SectorSize <= dev.disk.nbSectors)
    }

    lemma AwaitsIs(chain: seq<Desc>)
      requires Awaits(chain)
      ensures Valid() && q.reqInProgress && q.Settled() && dev.Ready(q.req.head, chain)
      ensures q.req.writeSize == |Addrs(Run(chain, true))| >= 1
      ensures q.req.out ==>
                var n := payload.Length / SectorSize;
                && (dev.disk.mode == ReadWrite ==> sector + n <= dev.disk.nbSectors)
                && (dev.disk.mode == Snapshot ==> sector + n < 0x1_0000_0000)
      ensures !q.req.out ==> sector + (q.req.writeSize - 1) / SectorSize <= dev.disk.nbSectors
    {
      hide Rings.BlockQueue.Settled, BlockDevice.Ready, Addrs;
    }

    lemma AwaitsRead(chain: seq<Desc>)
      requires Valid() && q.reqInProgress && !q.req.out && dev.Ready(q.req.head, chain)
      requires q.req.writeSize == |Addrs(Run(chain, true))| >= 1
      requires sector + (|Addrs(Run(chain, true))| - 1) / SectorSize <= dev.disk.nbSectors
      ensures Awaits(chain)
    {
      hide Valid, BlockDevice.Ready, Addrs;
    }

    /**
     * The callback: the data of a read or the sectors of a write, the status byte, and only
     * then the head in the used ring. Nothing is in flight afterwards.
     */
    method Completed(ghost chain: seq<Desc>) returns (ghost data: seq<nat>)
      requires Awaits(chain)
      modifies dev.copier.guest.ram, dev.disk, q`usedIdx, q`used, q`intStatus, q`reqInProgress, q.usedRing
      ensures Valid() && !q.reqInProgress && q.View() == Rings.Completed(old(q.View()))
      ensures q.used == old(q.used) + [Rings.UsedElem(q.req.head, if q.req.out then 1 else |Addrs(Run(chain, true))|)]
      ensures if q.req.out then
                WriteServed(old(Mem()), Mem(), Addrs(Run(chain, true)), old(dev.disk.Disk()), dev.disk.Disk(), sector, payload[..],
                            Writable(dev.disk.mode, dev.disk.nbSectors, sector, payload.Length / SectorSize))
              else
                && ReadServed(old(Mem()), Mem(), Addrs(Run(chain, true)), old(dev.disk.Disk()), sector, data, dev.disk.open)
                && dev.disk.Disk() == old(dev.disk.Disk())
    {
      hide *;
      AwaitsIs(chain);
      ValidIs();
      data := [];
      if q.req.out {
        var _ := dev.ServeWrite(q.req.head, sector, payload, chain);
      } else {
        data := dev.ServeRead(q.req.head, sector, q.req.writeSize, chain);
      }
      q.FinishRequest();
      AnswerIs(q.req);
      ValidIs();
    }
  }

  lemma AnswerIs(r: Rings.Request)
    ensures Rings.Answer(r) == Rings.UsedElem(r.head, if r.out then 1 else r.writeSize)
  {
  }

  lemma ServedUsed(m0: Flat, m: Flat, rd: seq<nat>, wr: seq<nat>, d0: seq<seq<nat>>, d: seq<seq<nat>>,
                   mode: Mode, open: bool, used: Option<nat>, data: seq<nat>)
    requires InRam(m0, rd) && HeaderSize <= |rd| && Served(m0, m, rd, wr, d0, d, mode, open, used, data)
    ensures TypeOf(m0, rd) == TypeIn ==> used == Some(|wr|)
    ensures TypeOf(m0, rd) == TypeOut ==> used == Some(1)
  {
    hide TypeOf, SectorNum, ReadServed, WriteServed, Writable;
  }

  /**
   * A read that the backend completes by a callback: when its head is in the used ring, its
   * chain holds the sectors its header named, as the disk has them, and the status byte.
   */
  method ReadLater(c: Controller, descIdx: nat, readSize: nat, writeSize: nat, ghost chain: seq<Desc>)
    returns (ghost data: seq<nat>)
    requires c.Takes(descIdx, readSize, writeSize, chain) && !c.q.reqInProgress && !c.q.submitted[c.q.accepted].out
    modifies c`sector, c`payload, c.dev.copier.guest.ram, c.dev.disk
    modifies c.q`usedIdx, c.q`used, c.q`intStatus, c.q`reqInProgress, c.q`req, c.q`accepted, c.q.usedRing
    ensures c.Valid() && !c.q.reqInProgress
    ensures c.q.used == old(c.q.used) + [Rings.UsedElem(descIdx, |Addrs(Run(chain, true))|)]
    ensures ReadServed(old(c.Mem()), c.Mem(), Addrs(Run(chain, true)), c.dev.disk.Disk(),
                       SectorNum(old(c.Mem()), Addrs(Run(chain, false))), data, c.dev.disk.open)
  {
    hide *;
    c.TakesIs(descIdx, readSize, writeSize, chain);
    c.ValidIs();
    c.dev.MemIs(descIdx, chain);
    c.dev.ReadyIs(descIdx, chain);
    c.KindDiffers();
    ghost var rd, wr, r, used := Addrs(Run(chain, false)), Addrs(Run(chain, true)), c.q.submitted[c.q.accepted], c.q.used;
    SensibleIs(c.Mem(), rd, wr, c.dev.disk.mode, c.dev.disk.nbSectors);
    c.RecvLater(descIdx, readSize, writeSize, chain);
    c.ValidIs();
    c.dev.MemIs(descIdx, chain);
    c.dev.ReadyIs(descIdx, chain);
    c.AwaitsRead(chain);
    data := c.Completed(chain);
  }
}
