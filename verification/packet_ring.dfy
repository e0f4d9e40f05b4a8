/** The packet buffer of the kernel module (mymodule/kernel_module/intercept-module.c),
    with the receive handler and read as atomic steps. */
module PacketRing {
  const MAX_PKT: nat := 200
  const KM_FIND_BUFF_SLOT_MAX_TRY: nat := 200
  const PKT_BUFFER_SIZE: nat := 128
  const BUFFER_SIZE: nat := 4096
  const PKTS_PER_BUFFER: nat := BUFFER_SIZE / PKT_BUFFER_SIZE
  const DEST_PORT: nat := 8080

  type Bytes = seq<bv8>

  /** What the handler looks at: IP version and protocol, UDP port and payload. */
  datatype Packet = Packet(version: nat, protocol: nat, destPort: nat, payload: Bytes)

  predicate Wanted(p: Packet) {
    p.version == 4 && p.protocol == 17 && p.destPort == DEST_PORT
  }

  function Zeros(n: nat): (z: Bytes)
    ensures |z| == n
  {
    seq(n, _ => 0)
  }

  /** A payload as it lies in a zeroed slot. */
  function Padded(payload: Bytes): (record: Bytes)
    requires |payload| <= PKT_BUFFER_SIZE
    ensures |record| == PKT_BUFFER_SIZE
  {
    payload + Zeros(PKT_BUFFER_SIZE - |payload|)
  }

  /** The slot k places after the next one to write. */
  function Slot(current: nat, k: nat): (i: nat)
    ensures i < MAX_PKT
  {
    (current + k) % MAX_PKT
  }

  /** The ring holds a queue: the occupied slots are the cyclic interval that
      ends just before the next slot to write, oldest record first; the free
      slots are zeroed. */
  ghost predicate Holds(status: seq<int>, slots: seq<Bytes>, current: nat, queue: seq<Bytes>) {
    && |status| == |slots| == MAX_PKT && current < MAX_PKT && |queue| <= MAX_PKT
    && (forall k :: 0 <= k < MAX_PKT - |queue| ==> Free(status, slots, Slot(current, k)))
    && (forall k :: MAX_PKT - |queue| <= k < MAX_PKT ==>
          status[Slot(current, k)] != 0 && slots[Slot(current, k)] == queue[k - (MAX_PKT - |queue|)])
  }

  ghost predicate Free(status: seq<int>, slots: seq<Bytes>, i: nat)
    requires i < |status| == |slots|
  {
    status[i] == 0 && slots[i] == Zeros(PKT_BUFFER_SIZE)
  }

  lemma SlotStart(current: nat)
    requires current < MAX_PKT
    ensures Slot(current, 0) == current
  {
  }

  lemma SlotNext(current: nat, k: nat)
    ensures (Slot(current, k) + 1) % MAX_PKT == Slot(current, k + 1)
  {
  }

  /** Slots at different places are different. */
  lemma SlotsDiffer(current: nat, j: nat, k: nat)
    requires current < MAX_PKT && j < MAX_PKT && k < MAX_PKT
    ensures Slot(current, j) == Slot(current, k) ==> j == k
  {
  }

  /** Writing into the next slot appends to the queue. */
  lemma Enqueued(status: seq<int>, slots: seq<Bytes>, current: nat, queue: seq<Bytes>, r: Bytes)
    requires Holds(status, slots, current, queue) && |queue| < MAX_PKT
    ensures Holds(status[current := 1], slots[current := r], Slot(current, 1), queue + [r])
  {
    var n := |queue|;
    var status', slots', current' := status[current := 1], slots[current := r], Slot(current, 1);
    forall k | 0 <= k < MAX_PKT - n - 1
      ensures Free(status', slots', Slot(current', k))
    {
      assert Slot(current', k) == Slot(current, k + 1);
      SlotsDiffer(current, k + 1, 0);
    }
    forall k | MAX_PKT - n - 1 <= k < MAX_PKT
      ensures status'[Slot(current', k)] != 0
      ensures slots'[Slot(current', k)] == (queue + [r])[k - (MAX_PKT - n - 1)]
    {
      if k < MAX_PKT - 1 {
        assert Slot(current', k) == Slot(current, k + 1);
        SlotsDiffer(current, k + 1, 0);
      } else {
        assert Slot(current', k) == current;
      }
    }
  }

  /** Clearing the oldest occupied slot removes the head of the queue. */
  lemma Dequeued(status: seq<int>, slots: seq<Bytes>, current: nat, queue: seq<Bytes>, i: nat)
    requires Holds(status, slots, current, queue) && |queue| > 0 && i == Slot(current, MAX_PKT - |queue|)
    ensures Holds(status[i := 0], slots[i := Zeros(PKT_BUFFER_SIZE)], current, queue[1..])
  {
    var n := |queue|;
    var status', slots' := status[i := 0], slots[i := Zeros(PKT_BUFFER_SIZE)];
    forall k | 0 <= k < MAX_PKT - (n - 1)
      ensures Free(status', slots', Slot(current, k))
    {
      SlotsDiffer(current, k, MAX_PKT - n);
      if k < MAX_PKT - n {
        assert Free(status, slots, Slot(current, k));
      }
    }
    forall k | MAX_PKT - (n - 1) <= k < MAX_PKT
      ensures status'[Slot(current, k)] != 0 && slots'[Slot(current, k)] == queue[1..][k - (MAX_PKT - (n - 1))]
    {
      SlotsDiffer(current, k, MAX_PKT - n);
    }
  }

  /** Place by place: free before the queue starts, and then the queue in order. */
  lemma AtPlace(status: seq<int>, slots: seq<Bytes>, current: nat, queue: seq<Bytes>, k: nat)
    requires Holds(status, slots, current, queue) && k < MAX_PKT
    ensures |status| == |slots| == MAX_PKT && |queue| <= MAX_PKT && current < MAX_PKT
    ensures k < MAX_PKT - |queue| ==> Free(status, slots, Slot(current, k))
    ensures k >= MAX_PKT - |queue| ==>
              status[Slot(current, k)] != 0 && slots[Slot(current, k)] == queue[k - (MAX_PKT - |queue|)]
  {
  }

  /** A ring state stands for one queue only. */
  lemma HeldQueueIsUnique(status: seq<int>, slots: seq<Bytes>, current: nat, q: seq<Bytes>, r: seq<Bytes>)
    requires Holds(status, slots, current, q) && Holds(status, slots, current, r)
    ensures q == r
  {
    var k := MAX_PKT - (if |q| < |r| then |r| else |q|);
    if |q| != |r| {
      AtPlace(status, slots, current, q, k);
      AtPlace(status, slots, current, r, k);
    } else {
      forall j | 0 <= j < |q|
        ensures q[j] == r[j]
      {
        AtPlace(status, slots, current, q, k + j);
        AtPlace(status, slots, current, r, k + j);
      }
    }
  }

  function Min(a: nat, b: nat): nat {
    if a < b then a else b
  }

  /** The page handed to user space: the given records, then zeros. */
  function Page(records: seq<Bytes>): (page: seq<Bytes>)
    requires |records| <= PKTS_PER_BUFFER
    ensures |page| == PKTS_PER_BUFFER
  {
    records + seq(PKTS_PER_BUFFER - |records|, _ => Zeros(PKT_BUFFER_SIZE))
  }

  lemma PageIs(records: seq<Bytes>, page: seq<Bytes>)
    requires |records| <= PKTS_PER_BUFFER == |page|
    requires forall j :: 0 <= j < |records| ==> page[j] == records[j]
    requires forall j :: |records| <= j < PKTS_PER_BUFFER ==> page[j] == Zeros(PKT_BUFFER_SIZE)
    ensures page == Page(records)
  {
    hide Zeros;
  }

  class Module {
    var status: array<int>
    var slots: array<Bytes>
    var currentIndex: nat
    var countPkt: nat
    var countPktOverflow: nat
    ghost var queue: seq<Bytes>
    ghost var delivered: seq<Bytes>

    ghost predicate Valid()
      reads this, status, slots
    {
      && status.Length == MAX_PKT && slots.Length == MAX_PKT
      && Holds(status[..], slots[..], currentIndex, queue)
      && countPkt == |delivered| + |queue| + countPktOverflow
    }

    /** myinit: all slots free and zeroed. */
    constructor ()
      ensures Valid() && fresh(status) && fresh(slots)
      ensures queue == [] && delivered == [] && countPkt == countPktOverflow == 0
    {
      status := new int[MAX_PKT](_ => 0);
      slots := new Bytes[MAX_PKT](_ => Zeros(PKT_BUFFER_SIZE));
      currentIndex, countPkt, countPktOverflow := 0, 0, 0;
      queue, delivered := [], [];
    }

    /** rxhPacketIn: a wanted packet joins the queue, or is dropped exactly when the
        ring is full. A payload longer than a slot that finds one would run into
        the slots behind it (`overrun`). */
    method RxhPacketIn(p: Packet) returns (overrun: bool)
      requires Valid()
      modifies this`currentIndex, this`countPkt, this`countPktOverflow, this`queue, status, slots
      ensures overrun <==> Wanted(p) && |old(queue)| < MAX_PKT && |p.payload| > PKT_BUFFER_SIZE
      ensures !overrun ==> Valid()
      ensures !Wanted(p) ==>
                queue == old(queue) && countPkt == old(countPkt) && countPktOverflow == old(countPktOverflow)
      ensures Wanted(p) ==> countPkt == old(countPkt) + 1
      ensures Wanted(p) && |old(queue)| < MAX_PKT && |p.payload| <= PKT_BUFFER_SIZE ==>
                queue == old(queue) + [Padded(p.payload)] && countPktOverflow == old(countPktOverflow)
      ensures Wanted(p) && |old(queue)| == MAX_PKT ==>
                queue == old(queue) && countPktOverflow == old(countPktOverflow) + 1
    {
      if p.version != 4 {
        return false;
      }
      if p.protocol != 17 {
        return false;
      }
      if p.destPort != DEST_PORT {
        return false;
      }
      countPkt := countPkt + 1;
      overrun := StoreOrDrop(p.payload);
    }

    /** The slot search of rxhPacketIn: starts at the next slot to write, gives up after a full round. */
    method StoreOrDrop(payload: Bytes) returns (overrun: bool)
      requires status.Length == MAX_PKT && slots.Length == MAX_PKT
      requires Holds(status[..], slots[..], currentIndex, queue)
      modifies this`currentIndex, this`countPktOverflow, this`queue, status, slots
      ensures Holds(status[..], slots[..], currentIndex, queue)
      ensures overrun <==> |old(queue)| < MAX_PKT && |payload| > PKT_BUFFER_SIZE
      ensures |old(queue)| < MAX_PKT && !overrun ==>
                queue == old(queue) + [Padded(payload)] && countPktOverflow == old(countPktOverflow)
      ensures |old(queue)| == MAX_PKT ==>
                queue == old(queue) && countPktOverflow == old(countPktOverflow) + 1
    {
      hide Holds;
      AtPlace(status[..], slots[..], currentIndex, queue, 0);
      overrun := false;
      var try, writeIndex := 0, currentIndex;
      ghost var before, content := status[..], slots[..];
      while try < KM_FIND_BUFF_SLOT_MAX_TRY
        modifies this`countPktOverflow
        invariant status[..] == before && slots[..] == content
        invariant 0 <= try <= MAX_PKT && writeIndex == Slot(currentIndex, try)
        invariant try > 0 ==> |queue| == MAX_PKT
        invariant countPktOverflow == old(countPktOverflow) + if try == MAX_PKT then 1 else 0
      {
        AtPlace(status[..], slots[..], currentIndex, queue, try);
        if status[writeIndex] == 0 {
          break;
        }
        writeIndex := (writeIndex + 1) % MAX_PKT;
        try := try + 1;
        if try == KM_FIND_BUFF_SLOT_MAX_TRY {
          countPktOverflow := countPktOverflow + 1;
        }
      }
      if try < KM_FIND_BUFF_SLOT_MAX_TRY {
        if |payload| > PKT_BUFFER_SIZE {
          return true;
        }
        Store(writeIndex, payload);
      }
    }

    /** Copy the payload into a free slot, mark it, and advance the index. */
    method Store(writeIndex: nat, payload: Bytes)
      requires status.Length == MAX_PKT && slots.Length == MAX_PKT && |payload| <= PKT_BUFFER_SIZE
      requires Holds(status[..], slots[..], currentIndex, queue) && |queue| < MAX_PKT && writeIndex == currentIndex
      modifies this`currentIndex, this`queue, status, slots
      ensures Holds(status[..], slots[..], currentIndex, queue)
      ensures queue == old(queue) + [Padded(payload)]
    {
      hide Holds;
      AtPlace(status[..], slots[..], currentIndex, queue, 0);
      Enqueued(status[..], slots[..], currentIndex, queue, Padded(payload));
      slots[writeIndex] := payload + slots[writeIndex][|payload|..];
      assert slots[writeIndex] == Padded(payload);
      status[writeIndex] := 1;
      assert status[..] == old(status[..])[writeIndex := 1];
      assert slots[..] == old(slots[..])[writeIndex := Padded(payload)];
      currentIndex := (writeIndex + 1) % MAX_PKT;
      queue := queue + [Padded(payload)];
    }

    /** The scan of read: copy up to a page of occupied slots, oldest first, and note where they were. */
    method Scan() returns (temp: seq<Bytes>, copiedIndex: seq<int>)
      requires Valid()
      ensures var m := Min(PKTS_PER_BUFFER, |queue|);
              && temp == Page(queue[..m]) && |copiedIndex| == PKTS_PER_BUFFER
              && (forall j :: 0 <= j < m ==> copiedIndex[j] == Slot(currentIndex, MAX_PKT - |queue| + j))
              && (forall j :: m <= j < PKTS_PER_BUFFER ==> copiedIndex[j] == -1)
    {
      hide Holds, Zeros, Slot, Page;
      AtPlace(status[..], slots[..], currentIndex, queue, 0);
      SlotStart(currentIndex);
      var ci, try, copied := currentIndex, 0, 0;
      temp := seq(PKTS_PER_BUFFER, _ => Zeros(PKT_BUFFER_SIZE));
      copiedIndex := seq(PKTS_PER_BUFFER, _ => -1);
      ghost var free := MAX_PKT - |queue|;
      while copied < PKTS_PER_BUFFER && try < MAX_PKT
        invariant 0 <= try <= MAX_PKT && ci == Slot(currentIndex, try)
        invariant copied == (if try <= free then 0 else try - free) && copied <= PKTS_PER_BUFFER
        invariant |temp| == |copiedIndex| == PKTS_PER_BUFFER
        invariant forall j :: 0 <= j < copied ==> temp[j] == queue[j] && copiedIndex[j] == Slot(currentIndex, free + j)
        invariant forall j ::
                    copied <= j < PKTS_PER_BUFFER ==> temp[j] == Zeros(PKT_BUFFER_SIZE) && copiedIndex[j] == -1
      {
        AtPlace(status[..], slots[..], currentIndex, queue, try);
        if status[ci] != 0 {
          temp := temp[copied := slots[ci]];
          copiedIndex := copiedIndex[copied := ci];
          copied := copied + 1;
        }
        SlotNext(currentIndex, try);
        ci := (ci + 1) % MAX_PKT;
        try := try + 1;
      }
      assert copied == Min(PKTS_PER_BUFFER, |queue|);
      PageIs(queue[..copied], temp);
    }

    /** Zero a delivered slot and free it. */
    method Clear(i: nat, ghost q: seq<Bytes>)
      requires status.Length == MAX_PKT && slots.Length == MAX_PKT
      requires Holds(status[..], slots[..], currentIndex, q) && |q| > 0 && i == Slot(currentIndex, MAX_PKT - |q|)
      modifies status, slots
      ensures Holds(status[..], slots[..], currentIndex, q[1..])
    {
      hide Holds;
      Dequeued(status[..], slots[..], currentIndex, q, i);
      slots[i] := Zeros(PKT_BUFFER_SIZE);
      status[i] := 0;
      assert status[..] == old(status[..])[i := 0];
      assert slots[..] == old(slots[..])[i := Zeros(PKT_BUFFER_SIZE)];
    }

    /** read: on a successful copy the oldest records leave the queue in order;
        a failed copy and a read past the end leave everything as it was. The
        return value is the buffer size whatever happens. */
    method Read(off: nat, copyFails: bool) returns (ret: nat, page: seq<Bytes>)
      requires Valid()
      modifies this`queue, this`delivered, status, slots
      ensures Valid() && ret == BUFFER_SIZE
      ensures off >= BUFFER_SIZE || copyFails ==> queue == old(queue) && delivered == old(delivered) && page == []
      ensures off < BUFFER_SIZE && !copyFails ==>
                var m := Min(PKTS_PER_BUFFER, |old(queue)|);
                && page == Page(old(queue)[..m])
                && queue == old(queue)[m..] && delivered == old(delivered) + old(queue)[..m]
    {
      hide Holds, Zeros, Page;
      AtPlace(status[..], slots[..], currentIndex, queue, 0);
      page := [];
      ret := BUFFER_SIZE;
      if BUFFER_SIZE <= off {
        return;
      }
      var temp, copiedIndex := Scan();
      if copyFails {
        return;
      }
      page := temp;
      ghost var m := Min(PKTS_PER_BUFFER, |queue|);
      assert old(queue)[0..] == old(queue);
      for i := 0 to PKTS_PER_BUFFER
        modifies status, slots
        invariant status.Length == MAX_PKT && slots.Length == MAX_PKT
        invariant Holds(status[..], slots[..], currentIndex, old(queue)[Min(i, m)..])
      {
        if copiedIndex[i] != -1 {
          Clear(copiedIndex[i], old(queue)[i..]);
          assert old(queue)[i..][1..] == old(queue)[i + 1..];
        }
      }
      delivered := delivered + queue[..m];
      queue := queue[m..];
    }
  }
}
