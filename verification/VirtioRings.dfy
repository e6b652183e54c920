/**
 * The split-ring protocol of the block device: requests are taken from the available ring in
 * order, at most one is left to complete later, and every answer goes into the used ring in
 * the order of the requests, whatever 16-bit index has wrapped meanwhile.
 */
module VirtioRings {

  const IndexLimit: nat := 0x1_0000

  /** A well-formed read (answered into a buffer) or write request. */
  datatype Request = Request(head: nat, out: bool, writeSize: nat)

  datatype UsedElem = UsedElem(id: nat, len: nat)

  /** What completing a request reports. */
  function Answer(r: Request): UsedElem {
    UsedElem(r.head, if r.out then 1 else r.writeSize)
  }

  /** Ring sizes are powers of two, at most the device's maximum. */
  predicate RingSize(num: nat) { num in {1, 2, 4, 8, 16} }

  /** index & (num - 1), where the index has wrapped at 16 bits. */
  lemma WrappedSlot(k: nat, num: nat)
    requires RingSize(num)
    ensures k % IndexLimit % num == k % num
  {
    var q := k / IndexLimit;
    assert k == q * IndexLimit + k % IndexLimit;
    if num == 1 {
    } else if num == 2 {
      SlotOf(k % IndexLimit, q * 0x8000, num);
    } else if num == 4 {
      SlotOf(k % IndexLimit, q * 0x4000, num);
    } else if num == 8 {
      SlotOf(k % IndexLimit, q * 0x2000, num);
    } else {
      SlotOf(k % IndexLimit, q * 0x1000, num);
    }
  }

  lemma SlotOf(x: nat, q: nat, num: nat)
    requires RingSize(num)
    ensures (x + q * num) % num == x % num
  {
  }

  /** Two counters less than a ring apart are equal when their wrapped values are. */
  lemma WrappedEqual(a: nat, b: nat)
    requires a <= b <= a + 16
    ensures a % IndexLimit == b % IndexLimit <==> a == b
  {
  }

  lemma WrappedNext(k: nat)
    ensures (k % IndexLimit + 1) % IndexLimit == (k + 1) % IndexLimit
  {
  }

  /** Outstanding entries of a ring do not share a slot. */
  lemma SlotsDiffer(a: nat, b: nat, num: nat)
    requires RingSize(num) && a < b < a + num
    ensures a % num != b % num
  {
  }

  // ---- The protocol on values ----

  /** The driver's requests, the answers it finds, and whether the request behind them is in flight. */
  datatype Device = Device(submitted: seq<Request>, used: seq<UsedElem>, inFlight: bool)

  /**
   * Requests are taken in order and answered at once, until one is left to complete later or
   * none is left. The backend's answers are asked for by the 16-bit index of the request.
   */
  function Take(d: Device, later: nat -> bool): (r: Device)
    ensures r.submitted == d.submitted && d.used <= r.used
    ensures !r.inFlight ==> |r.used| >= |r.submitted|
    decreases |d.submitted| - |d.used|
  {
    if d.inFlight || |d.used| >= |d.submitted| then d
    else if later(|d.used| % IndexLimit) then d.(inFlight := true)
    else Take(d.(used := d.used + [Answer(d.submitted[|d.used|])]), later)
  }

  lemma TakeStep(d: Device, later: nat -> bool)
    ensures d.inFlight || |d.used| >= |d.submitted| ==> Take(d, later) == d
    ensures !d.inFlight && |d.used| < |d.submitted| && later(|d.used| % IndexLimit) ==> Take(d, later) == d.(inFlight := true)
    ensures !d.inFlight && |d.used| < |d.submitted| && !later(|d.used| % IndexLimit) ==>
              Take(d, later) == Take(d.(used := d.used + [Answer(d.submitted[|d.used|])]), later)
  {
  }

  /** The request in flight is answered. */
  function Completed(d: Device): Device {
    if d.inFlight && |d.used| < |d.submitted| then
      d.(used := d.used + [Answer(d.submitted[|d.used|])], inFlight := false)
    else d
  }

  datatype Event = Submit(r: Request) | Notify(later: nat -> bool) | Complete(later: nat -> bool)

  /** May the driver make r available: has the ring room, and is no outstanding request on its chain? */
  predicate Free(num: nat, d: Device, r: Request) {
    |d.submitted| < |d.used| + num && forall k :: |d.used| <= k < |d.submitted| ==> d.submitted[k].head != r.head
  }

  function StepOf(num: nat, d: Device, e: Event): Device {
    match e
    case Submit(r) => if Free(num, d, r) then d.(submitted := d.submitted + [r]) else d
    case Notify(later) => Take(d, later)
    case Complete(later) => if d.inFlight then Take(Completed(d), later) else d
  }

  function Fold(num: nat, events: seq<Event>): Device {
    if events == [] then Device([], [], false)
    else StepOf(num, Fold(num, events[..|events| - 1]), events[|events| - 1])
  }

  class BlockQueue {
    const num: nat
    // the rings, as the driver laid them out
    var availIdx: nat
    const availRing: array<nat>
    var usedIdx: nat
    const usedRing: array<UsedElem>
    // the request a chain head stands for
    var chains: map<nat, Request>
    // the device
    var lastAvailIdx: nat
    var reqInProgress: bool
    var req: Request
    var intStatus: bool

    // every request the driver ever made available, and every element the device ever used
    ghost var submitted: seq<Request>
    ghost var accepted: nat
    ghost var used: seq<UsedElem>

    ghost predicate Counters()
      reads this, availRing, usedRing
    {
      && RingSize(num) && availRing.Length == usedRing.Length == num
      && |used| <= accepted <= |submitted| <= |used| + num
      && availIdx == |submitted| % IndexLimit && usedIdx == |used| % IndexLimit
    }

    ghost predicate Rings()
      requires Counters()
      reads this, availRing, usedRing
    {
      && (forall k :: |used| <= k < |submitted| ==> availRing[k % num] == submitted[k].head)
      && (forall k :: |used| <= k < |submitted| ==> submitted[k].head in chains && chains[submitted[k].head] == submitted[k])
      && (forall k :: 0 <= k < |used| ==> used[k] == Answer(submitted[k]))
      && (forall k :: 0 <= k < |used| && |used| <= k + num ==> usedRing[k % num] == used[k])
    }

    /** Accepted requests are those answered, and the one in flight if there is one. */
    ghost predicate Valid()
      reads this, availRing, usedRing
    {
      Settled() && lastAvailIdx == accepted % IndexLimit
    }

    /** Valid, but for the device's own index, which moves on last. */
    ghost predicate Settled()
      reads this, availRing, usedRing
    {
      && Counters() && Rings()
      && accepted == |used| + (if reqInProgress then 1 else 0)
      && (reqInProgress ==> req == submitted[|used|])
    }

    /** The abstract state. */
    ghost function View(): Device
      reads this
    {
      Device(submitted, used, reqInProgress)
    }

    constructor (num: nat)
      requires RingSize(num)
      ensures Valid() && View() == Device([], [], false) && this.num == num && fresh(availRing) && fresh(usedRing)
    {
      this.num := num;
      availRing := new nat[num](_ => 0);
      usedRing := new UsedElem[num](_ => UsedElem(0, 0));
      availIdx, usedIdx, lastAvailIdx := 0, 0, 0;
      chains, reqInProgress, req, intStatus := map[], false, Request(0, false, 1), false;
      submitted, accepted, used := [], 0, [];
    }

    /** The driver makes a chain available, while the ring has room and the head is not in use. */
    method Publish(r: Request)
      requires Valid() && |submitted| < |used| + num
      requires forall k :: |used| <= k < |submitted| ==> submitted[k].head != r.head
      modifies this`availIdx, this`chains, this`submitted, availRing
      ensures Valid() && submitted == old(submitted) + [r]
    {
      WrappedSlot(|submitted|, num);
      WrappedNext(|submitted|);
      forall k | |used| <= k < |submitted| ensures k % num != |submitted| % num {
        SlotsDiffer(k, |submitted|, num);
      }
      availRing[availIdx % num] := r.head;
      chains := chains[r.head := r];
      availIdx := (availIdx + 1) % IndexLimit;
      submitted := submitted + [r];
    }

    /** virtio_consume_desc: the next element of the used ring. */
    method ConsumeDesc(descIdx: nat, descLen: nat)
      requires Counters() && Rings() && |used| < accepted
      requires UsedElem(descIdx, descLen) == Answer(submitted[|used|])
      modifies this`usedIdx, this`used, this`intStatus, usedRing
      ensures Counters() && Rings() && used == old(used) + [UsedElem(descIdx, descLen)] && intStatus
    {
      WrappedSlot(|used|, num);
      WrappedNext(|used|);
      forall k | 0 <= k < |used| && |used| < k + num ensures k % num != |used| % num {
        SlotsDiffer(k, |used|, num);
      }
      var index := usedIdx;
      usedIdx := (index + 1) % IndexLimit;
      usedRing[index % num] := UsedElem(descIdx, descLen);
      intStatus := true;
      used := used + [UsedElem(descIdx, descLen)];
    }

    /** virtio_block_req_end */
    method BlockReqEnd()
      requires Counters() && Rings() && accepted == |used| + 1 && req == submitted[|used|]
      modifies this`usedIdx, this`used, this`intStatus, usedRing
      ensures Counters() && Rings() && used == old(used) + [Answer(req)] && intStatus
    {
      if req.out {
        ConsumeDesc(req.head, 1);
      } else {
        ConsumeDesc(req.head, req.writeSize);
      }
    }

    /** virtio_block_recv_request; later says whether the backend will complete it by a callback. */
    method BlockRecvRequest(descIdx: nat, later: bool) returns (ret: int)
      requires Settled() && accepted < |submitted| && descIdx == submitted[accepted].head
      modifies this`usedIdx, this`used, this`intStatus, this`reqInProgress, this`req, this`accepted, usedRing
      ensures Settled()
      ensures ret == if old(reqInProgress) then -1 else 0
      ensures accepted == old(accepted) + (if ret == 0 then 1 else 0)
      ensures used == old(used) + (if ret == 0 && !later then [Answer(submitted[old(accepted)])] else [])
      ensures ret == 0 ==> reqInProgress == later
      ensures ret != 0 ==> reqInProgress
    {
      if reqInProgress {
        return -1;
      }
      req := chains[descIdx];
      accepted := accepted + 1;
      if later {
        reqInProgress := true;
      } else {
        BlockReqEnd();
      }
      ret := 0;
    }

    /** What the driver finds in the used ring behind the elements it has seen. */
    method ReadUsed(seen: seq<UsedElem>) returns (all: seq<UsedElem>)
      requires Valid() && seen <= used && |used| <= |seen| + num
      ensures all == used
    {
      all := seen;
      while |all| % IndexLimit != usedIdx
        invariant seen <= all <= used
        decreases |used| - |all|
      {
        WrappedEqual(|all|, |used|);
        WrappedSlot(|all|, num);
        all := all + [usedRing[|all| % IndexLimit % num]];
      }
      WrappedEqual(|all|, |used|);
    }

    method Advance()
      requires Settled() && accepted > 0 && lastAvailIdx == (accepted - 1) % IndexLimit
      modifies this`lastAvailIdx
      ensures Valid()
    {
      WrappedNext(accepted - 1);
      lastAvailIdx := (lastAvailIdx + 1) % IndexLimit;
    }

    /** queue_notify: takes requests until none is left or one is in flight. */
    method QueueNotify(later: nat -> bool)
      requires Valid()
      modifies this`usedIdx, this`used, this`intStatus, this`reqInProgress, this`req, this`accepted, this`lastAvailIdx, usedRing
      ensures Valid() && View() == Take(old(View()), later)
    {
      hide Rings, Take;
      var avail := availIdx;
      while lastAvailIdx != avail
        invariant Valid() && Take(View(), later) == Take(old(View()), later)
        decreases |submitted| - accepted
      {
        WrappedEqual(accepted, |submitted|);
        WrappedNext(accepted);
        NextHead();
        TakeStep(View(), later);
        var descIdx := availRing[lastAvailIdx % num];
        var ret := BlockRecvRequest(descIdx, later(lastAvailIdx));
        if ret < 0 {
          break;
        }
        Advance();
        TakeStep(View(), later);
      }
      WrappedEqual(accepted, |submitted|);
      TakeStep(View(), later);
    }

    /** The next entry of the available ring is the head of the next request. */
    lemma NextHead()
      requires Valid() && accepted < |submitted|
      ensures availRing[lastAvailIdx % num] == submitted[accepted].head
    {
      WrappedSlot(accepted, num);
    }

    /** The request in flight is answered, and nothing is in flight. */
    method FinishRequest()
      requires Settled() && reqInProgress
      modifies this`usedIdx, this`used, this`intStatus, this`reqInProgress, usedRing
      ensures Settled() && !reqInProgress && used == old(used) + [Answer(req)] && intStatus
      ensures View() == Completed(old(View()))
    {
      BlockReqEnd();
      reqInProgress := false;
    }

    /** virtio_block_req_cb: the request in flight has completed. */
    method BlockReqCb(later: nat -> bool)
      requires Valid() && reqInProgress
      modifies this`usedIdx, this`used, this`intStatus, this`reqInProgress, this`req, this`accepted, this`lastAvailIdx, usedRing
      ensures Valid() && View() == Take(Completed(old(View())), later)
    {
      FinishRequest();
      QueueNotify(later);
    }
  }

  // ---- Whole runs ----

  lemma FoldNext(num: nat, events: seq<Event>, i: nat)
    requires i < |events|
    ensures Fold(num, events[..i + 1]) == StepOf(num, Fold(num, events[..i]), events[i])
  {
    assert events[..i + 1][..i] == events[..i];
  }

  /** What every reachable state keeps. */
  ghost predicate Conserved(num: nat, d: Device) {
    && |d.used| + (if d.inFlight then 1 else 0) <= |d.submitted| <= |d.used| + num
    && forall k :: 0 <= k < |d.used| ==> d.used[k] == Answer(d.submitted[k])
  }

  lemma {:induction false} TakeConserves(num: nat, d: Device, later: nat -> bool)
    requires Conserved(num, d)
    ensures Conserved(num, Take(d, later))
    decreases |d.submitted| - |d.used|
  {
    if !d.inFlight && |d.used| < |d.submitted| && !later(|d.used| % IndexLimit) {
      TakeConserves(num, d.(used := d.used + [Answer(d.submitted[|d.used|])]), later);
    }
  }

  /** Used elements are the answers in order of submission, each once, in every reachable state. */
  lemma {:induction false} FoldConserves(num: nat, events: seq<Event>)
    ensures Conserved(num, Fold(num, events))
    decreases |events|
  {
    if events != [] {
      var d, e := Fold(num, events[..|events| - 1]), events[|events| - 1];
      FoldConserves(num, events[..|events| - 1]);
      match e
      case Submit(r) =>
      case Notify(later) => TakeConserves(num, d, later);
      case Complete(later) =>
        if d.inFlight {
          TakeConserves(num, Completed(d), later);
        }
    }
  }

  /**
   * Any run of driver submissions, notifications and completions does what the protocol on
   * values does; the device's own index counts the answers and the request in flight.
   */
  method Run(num: nat, events: seq<Event>)
    returns (submitted: seq<Request>, used: seq<UsedElem>, inFlight: bool, taken: nat)
    requires RingSize(num)
    ensures Device(submitted, used, inFlight) == Fold(num, events)
    ensures taken == (|used| + if inFlight then 1 else 0) % 0x1_0000
  {
    hide BlockQueue.Valid, StepOf;
    var q := new BlockQueue(num);
    submitted, used := [], [];
    var i := 0;
    assert events[..0] == [];
    while i < |events|
      invariant q.Valid() && fresh(q) && fresh(q.availRing) && fresh(q.usedRing) && q.num == num
      invariant i <= |events| && submitted == q.submitted && used == q.used && q.View() == Fold(num, events[..i])
    {
      FoldNext(num, events, i);
      submitted := Handle(q, events[i], submitted, used);
      used := q.ReadUsed(used);
      i := i + 1;
    }
    assert events[..i] == events;
    inFlight, taken := q.reqInProgress, q.lastAvailIdx;
    ValidSays(q);
  }

  lemma ValidSays(q: BlockQueue)
    requires q.Valid()
    ensures |q.used| <= |q.submitted| && forall k :: 0 <= k < |q.used| ==> q.used[k] == Answer(q.submitted[k])
    ensures q.accepted == |q.used| + (if q.reqInProgress then 1 else 0) <= |q.submitted| <= |q.used| + q.num
    ensures q.lastAvailIdx == q.accepted % IndexLimit
  {
  }

  /**
   * What driver and device find in the rings: 16-bit counts, each outstanding head and each of
   * the last elements in its slot, an answer being the head with the bytes written to the chain.
   */
  lemma RingsInNumbers(q: BlockQueue)
    requires q.Valid()
    ensures q.num in {1, 2, 4, 8, 16} && q.availRing.Length == q.usedRing.Length == q.num
    ensures q.availIdx == |q.submitted| % 0x1_0000 && q.usedIdx == |q.used| % 0x1_0000
    ensures q.lastAvailIdx == (|q.used| + if q.reqInProgress then 1 else 0) % 0x1_0000
    ensures forall k :: |q.used| <= k < |q.submitted| ==> q.availRing[k % q.num] == q.submitted[k].head
    ensures |q.used| <= |q.submitted|
    ensures forall k :: 0 <= k < |q.used| ==>
      q.used[k].id == q.submitted[k].head && q.used[k].len == (if q.submitted[k].out then 1 else q.submitted[k].writeSize)
    ensures forall k :: 0 <= k < |q.used| && |q.used| <= k + q.num ==> q.usedRing[k % q.num] == q.used[k]
  {
    ValidSays(q);
  }

  method Handle(q: BlockQueue, e: Event, submitted: seq<Request>, used: seq<UsedElem>) returns (submitted': seq<Request>)
    requires q.Valid() && submitted == q.submitted && used == q.used
    modifies q, q.availRing, q.usedRing
    ensures q.Valid() && q.View() == StepOf(q.num, old(q.View()), e)
    ensures submitted' == q.submitted && used <= q.used && |q.used| <= |used| + q.num
  {
    hide BlockQueue.Valid, Take;
    ValidSays(q);
    submitted' := submitted;
    match e
    case Submit(r) =>
      var free := |submitted| < |used| + q.num && forall k :: |used| <= k < |submitted| ==> submitted[k].head != r.head;
      if free {
        q.Publish(r);
        submitted' := submitted + [r];
      }
    case Notify(later) =>
      q.QueueNotify(later);
      ValidSays(q);
    case Complete(later) =>
      if q.reqInProgress {
        q.BlockReqCb(later);
        ValidSays(q);
      }
  }
}
