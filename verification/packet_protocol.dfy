/** The same packet buffer with the receive handler and read interleaved step
    by step: one handler, one reader, sequentially consistent memory. */
module PacketProtocol {
  import PacketRing

  const MAX_PKT := PacketRing.MAX_PKT
  const PKTS_PER_BUFFER := PacketRing.PKTS_PER_BUFFER
  const MAX_TRY := PacketRing.KM_FIND_BUFF_SLOT_MAX_TRY

  /** A packet by its arrival number; a slot holds zeros or the bytes of one packet. */
  type Arrival = nat
  datatype Cell = Zeroed | Data(id: Arrival)

  /** What the scan copied at some place of its round. */
  datatype Copy = Copy(place: nat, cell: Cell)

  /** Where the receive handler is. */
  datatype Handler =
    | Waiting
    | Searching(id: Arrival, index: nat, tries: nat)
    | Claimed(id: Arrival, index: nat)
    | Filled(id: Arrival, index: nat)
    | Marked(index: nat)

  /** Where read is; `start` is the index its scan started from. */
  datatype Reader =
    | Away
    | Scanning(start: nat, tries: nat, copies: seq<Copy>)
    | Taking(start: nat, tries: nat, copies: seq<Copy>)
    | Copying(start: nat, copies: seq<Copy>)
    | Clearing(start: nat, copies: seq<Copy>, done: nat)
    | Zeroing(start: nat, copies: seq<Copy>, done: nat)

  datatype State = State(
    occupied: seq<bool>,       // status[i] != 0
    cells: seq<Cell>,          // buff_from_here
    currentIndex: nat,
    arrivals: nat,             // count_pkt
    handler: Handler,
    reader: Reader,
    accepted: set<Arrival>,    // packets whose slot was marked
    dropped: set<Arrival>,     // packets that found no slot
    delivered: seq<Cell>       // slots handed to user space
  )

  datatype Step =
    | Arrive | NextSlot | Claim | GiveUp | Fill | Mark | Advance
    | StartScan | Skip | Spot | Take | EndScan | CopyOut | CopyFault | Zero | Release | Leave

  function Index(start: nat, place: nat): (i: nat)
    ensures i < MAX_PKT
  {
    (start + place) % MAX_PKT
  }

  function Cells(copies: seq<Copy>): (cells: seq<Cell>)
    ensures |cells| == |copies|
  {
    seq(|copies|, i requires 0 <= i < |copies| => copies[i].cell)
  }

  ghost predicate Init(s: State) {
    s == State(seq(MAX_PKT, _ => false), seq(MAX_PKT, _ => Zeroed), 0, 0, Waiting, Away, {}, {}, [])
  }

  /** Steps of rxhPacketIn. */
  ghost predicate HandlerStep(s: State, s': State, step: Step)
    requires |s.occupied| == |s.cells| == MAX_PKT
  {
    match s.handler
    case Waiting =>
      step == Arrive && s' == s.(handler := Searching(s.arrivals, s.currentIndex, 0), arrivals := s.arrivals + 1)
    case Searching(id, index, tries) =>
      index < MAX_PKT &&
      if tries >= MAX_TRY then
        step == GiveUp && s' == s.(handler := Waiting, dropped := s.dropped + {id})
      else if s.occupied[index] then
        step == NextSlot && s' == s.(handler := Searching(id, Index(index, 1), tries + 1))
      else
        step == Claim && s' == s.(handler := Claimed(id, index))
    case Claimed(id, index) =>
      index < MAX_PKT && step == Fill && s' == s.(handler := Filled(id, index), cells := s.cells[index := Data(id)])
    case Filled(id, index) =>
      index < MAX_PKT && step == Mark &&
      s' == s.(handler := Marked(index), occupied := s.occupied[index := true], accepted := s.accepted + {id})
    case Marked(index) =>
      step == Advance && s' == s.(handler := Waiting, currentIndex := Index(index, 1))
  }

  /** Steps of read: scan, copy to user space, and clear each slot, its bytes before its mark. */
  ghost predicate ReaderStep(s: State, s': State, step: Step)
    requires |s.occupied| == |s.cells| == MAX_PKT
  {
    match s.reader
    case Away =>
      step == StartScan && s' == s.(reader := Scanning(s.currentIndex, 0, []))
    case Scanning(start, tries, copies) =>
      if |copies| >= PKTS_PER_BUFFER || tries >= MAX_PKT then
        step == EndScan && s' == s.(reader := Copying(start, copies))
      else if s.occupied[Index(start, tries)] then
        step == Spot && s' == s.(reader := Taking(start, tries, copies))
      else
        step == Skip && s' == s.(reader := Scanning(start, tries + 1, copies))
    case Taking(start, tries, copies) =>
      step == Take &&
      s' == s.(reader := Scanning(start, tries + 1, copies + [Copy(tries, s.cells[Index(start, tries)])]))
    case Copying(start, copies) =>
      || (step == CopyOut && s' == s.(reader := Clearing(start, copies, 0), delivered := s.delivered + Cells(copies)))
      || (step == CopyFault && s' == s.(reader := Away))
    case Clearing(start, copies, done) =>
      if done < |copies| then
        step == Zero &&
        s' == s.(reader := Zeroing(start, copies, done), cells := s.cells[Index(start, copies[done].place) := Zeroed])
      else
        step == Leave && s' == s.(reader := Away)
    case Zeroing(start, copies, done) =>
      done < |copies| && step == Release &&
      s' == s.(reader := Clearing(start, copies, done + 1),
               occupied := s.occupied[Index(start, copies[done].place) := false])
  }

  ghost predicate Next(s: State, s': State, step: Step) {
    |s.occupied| == |s.cells| == MAX_PKT && (HandlerStep(s, s', step) || ReaderStep(s, s', step))
  }

  /** The slots the reader has copied and not yet touched since. */
  function Held(r: Reader): (copies: seq<Copy>) {
    match r
    case Away => []
    case Scanning(_, _, copies) => copies
    case Taking(_, _, copies) => copies
    case Copying(_, copies) => copies
    case Clearing(_, copies, done) => if done <= |copies| then copies[done..] else []
    case Zeroing(_, copies, done) => if done < |copies| then copies[done + 1..] else []
  }

  function Start(r: Reader): nat {
    if r == Away then 0 else r.start
  }

  /** The slot that is being cleared: zeroed, but still marked. */
  ghost predicate BeingCleared(s: State, i: nat) {
    && s.reader.Zeroing? && s.reader.done < |s.reader.copies|
    && i == Index(s.reader.start, s.reader.copies[s.reader.done].place)
  }

  /** The data of a held slot has already reached user space. */
  predicate HandedOver(r: Reader) {
    r.Clearing? || r.Zeroing?
  }

  ghost predicate HeldSlot(s: State, i: nat) {
    exists j :: 0 <= j < |Held(s.reader)| && i == Index(Start(s.reader), Held(s.reader)[j].place)
  }

  /** A packet that lies in a marked slot and has not been handed over. */
  ghost predicate Buffered(s: State, id: Arrival) {
    exists i :: BufferedAt(s, id, i)
  }

  ghost predicate BufferedAt(s: State, id: Arrival, i: nat) {
    && i < |s.occupied| == |s.cells| && s.occupied[i] && s.cells[i] == Data(id)
    && !(HandedOver(s.reader) && HeldSlot(s, i))
  }

  /** Slots: marked ones hold a packet of their own, unless being cleared. */
  ghost predicate SlotsOk(s: State) {
    && |s.occupied| == |s.cells| == MAX_PKT && s.currentIndex < MAX_PKT
    && (forall i :: 0 <= i < MAX_PKT && s.occupied[i] ==> SlotOk(s, i))
    && (forall i, j :: 0 <= i < j < MAX_PKT && s.occupied[i] && s.occupied[j] && s.cells[i].Data? ==>
                         s.cells[i] != s.cells[j])
    && (s.reader.Zeroing? ==>
          && s.reader.done < |s.reader.copies|
          && BeingClearedOk(s, Index(s.reader.start, s.reader.copies[s.reader.done].place)))
  }

  ghost predicate SlotOk(s: State, i: nat)
    requires i < |s.occupied| == |s.cells|
  {
    BeingCleared(s, i) || (s.cells[i].Data? && s.cells[i].id in s.accepted)
  }

  ghost predicate BeingClearedOk(s: State, i: nat)
    requires i < |s.occupied| == |s.cells|
  {
    s.occupied[i] && s.cells[i] == Zeroed
  }

  /** The packet the handler has not yet stored or dropped. */
  predicate InHand(h: Handler, id: Arrival) {
    (h.Searching? || h.Claimed? || h.Filled?) && h.id == id
  }

  /** The handler works on a packet nobody has seen, and on a slot nobody has marked. */
  ghost predicate HandlerOk(s: State)
    requires |s.occupied| == |s.cells| == MAX_PKT
  {
    && (forall id :: id in s.accepted || id in s.dropped ==> id < s.arrivals)
    && s.accepted !! s.dropped
    && (forall id: Arrival :: id < s.arrivals ==> id in s.accepted || id in s.dropped || InHand(s.handler, id))
    && (s.handler.Searching? || s.handler.Claimed? || s.handler.Filled? ==>
          s.handler.id < s.arrivals && s.handler.id !in s.accepted && s.handler.id !in s.dropped)
    && (s.handler != Waiting ==> s.handler.index < MAX_PKT)
    && (s.handler.Claimed? || s.handler.Filled? ==> !s.occupied[s.handler.index])
    && (s.handler.Filled? ==> s.cells[s.handler.index] == Data(s.handler.id))
  }

  /** The reader's copies are of distinct marked slots that still hold what was copied. */
  ghost predicate ReaderOk(s: State)
    requires |s.occupied| == |s.cells| == MAX_PKT
  {
    && (forall j :: 0 <= j < |Held(s.reader)| ==> HeldOk(s, Held(s.reader)[j]))
    && (forall i, j :: 0 <= i < j < |Held(s.reader)| ==> Held(s.reader)[i].place != Held(s.reader)[j].place)
    && (s.reader.Scanning? || s.reader.Taking? ==>
          forall j :: 0 <= j < |s.reader.copies| ==> s.reader.copies[j].place < s.reader.tries)
    && (s.reader.Taking? ==> s.reader.tries < MAX_PKT && s.occupied[Index(s.reader.start, s.reader.tries)])
    && (s.reader.Clearing? ==> s.reader.done <= |s.reader.copies|)
    && (s.reader.Zeroing? ==> s.reader.done < |s.reader.copies| && s.reader.copies[s.reader.done].place < MAX_PKT)
    && (s.reader.Zeroing? ==>
          forall j :: 0 <= j < |Held(s.reader)| ==> Held(s.reader)[j].place != s.reader.copies[s.reader.done].place)
  }

  ghost predicate HeldOk(s: State, c: Copy)
    requires |s.occupied| == |s.cells| == MAX_PKT
  {
    && c.place < MAX_PKT && c.cell.Data?
    && s.occupied[Index(Start(s.reader), c.place)] && s.cells[Index(Start(s.reader), c.place)] == c.cell
  }

  /** Deliveries: accepted packets only, each once; a marked slot that has not
      been handed over is not delivered; every accepted packet is delivered or
      in such a slot. */
  ghost predicate DeliveredOk(s: State)
    requires |s.occupied| == |s.cells| == MAX_PKT
  {
    && (forall k :: 0 <= k < |s.delivered| ==> s.delivered[k].Data? && s.delivered[k].id in s.accepted)
    && (forall k, l :: 0 <= k < l < |s.delivered| ==> s.delivered[k] != s.delivered[l])
    && (forall id, i :: BufferedAt(s, id, i) ==> Data(id) !in s.delivered)
    && (forall id :: id in s.accepted ==> Data(id) in s.delivered || Buffered(s, id))
    && (HandedOver(s.reader) ==> forall j :: 0 <= j < |Held(s.reader)| ==> Held(s.reader)[j].cell in s.delivered)
  }

  ghost predicate Inv(s: State) {
    |s.occupied| == |s.cells| == MAX_PKT && SlotsOk(s) && HandlerOk(s) && ReaderOk(s) && DeliveredOk(s)
  }

  /** Different places of a round are different slots. */
  lemma IndexApart(start: nat, p: nat, q: nat)
    requires p < MAX_PKT && q < MAX_PKT && p != q
    ensures Index(start, p) != Index(start, q)
  {
  }

  lemma InitInv(s: State)
    requires Init(s)
    ensures Inv(s)
  {
  }

  lemma HandlerKeepsSlots(s: State, s': State, step: Step)
    requires Inv(s) && HandlerStep(s, s', step)
    ensures SlotsOk(s')
  {
    forall i | 0 <= i < MAX_PKT && s'.occupied[i]
      ensures SlotOk(s', i)
    {
      assert s.occupied[i] ==> SlotOk(s, i);
    }
  }

  lemma HandlerKeepsHandler(s: State, s': State, step: Step)
    requires Inv(s) && HandlerStep(s, s', step)
    ensures |s'.occupied| == |s'.cells| == MAX_PKT && HandlerOk(s')
  {
  }

  lemma HandlerKeepsReader(s: State, s': State, step: Step)
    requires Inv(s) && HandlerStep(s, s', step)
    ensures |s'.occupied| == |s'.cells| == MAX_PKT && ReaderOk(s')
  {
    forall j | 0 <= j < |Held(s'.reader)|
      ensures HeldOk(s', Held(s'.reader)[j])
    {
      assert HeldOk(s, Held(s.reader)[j]);
    }
  }

  lemma HandlerKeepsDelivered(s: State, s': State, step: Step)
    requires Inv(s) && HandlerStep(s, s', step)
    ensures |s'.occupied| == |s'.cells| == MAX_PKT && DeliveredOk(s')
  {
    forall id, i | BufferedAt(s', id, i)
      ensures Data(id) !in s'.delivered
    {
      assert BufferedAt(s, id, i) || (step == Mark && id == s.handler.id);
    }
    forall id | id in s'.accepted
      ensures Data(id) in s'.delivered || Buffered(s', id)
    {
      if id in s.accepted && Data(id) !in s.delivered {
        var i :| BufferedAt(s, id, i);
        assert BufferedAt(s', id, i);
      } else if id !in s.accepted {
        assert step == Mark;
        assert BufferedAt(s', id, s.handler.index);
      }
    }
  }

  /** The slot about to be cleared still holds what was copied from it. */
  lemma NextToClear(s: State)
    requires |s.occupied| == |s.cells| == MAX_PKT && ReaderOk(s)
    requires s.reader.Clearing? && s.reader.done < |s.reader.copies|
    ensures var c := s.reader.copies[s.reader.done]; c == Held(s.reader)[0] && HeldOk(s, c)
  {
    assert s.reader.copies[s.reader.done] == Held(s.reader)[0];
  }

  lemma ReaderKeepsHandler(s: State, s': State, step: Step)
    requires Inv(s) && ReaderStep(s, s', step)
    ensures |s'.occupied| == |s'.cells| == MAX_PKT && HandlerOk(s')
  {
    hide SlotsOk, DeliveredOk, ReaderOk, Init;
    if s.reader.Clearing? && s.reader.done < |s.reader.copies| {
      NextToClear(s);
    }
  }

  lemma ReaderKeepsSlots(s: State, s': State, step: Step)
    requires Inv(s) && ReaderStep(s, s', step)
    ensures SlotsOk(s')
  {
    hide HandlerOk, DeliveredOk;
    if s.reader.Clearing? && s.reader.done < |s.reader.copies| {
      NextToClear(s);
    }
    forall i | 0 <= i < MAX_PKT && s'.occupied[i]
      ensures SlotOk(s', i)
    {
      assert SlotOk(s, i);
    }
  }

  /** Scanning adds to the copies only what lies in a marked slot. */
  lemma ScanKeepsReader(s: State, s': State, step: Step)
    requires SlotsOk(s) && ReaderOk(s) && ReaderStep(s, s', step) && !s.reader.Clearing? && !s.reader.Zeroing?
    ensures |s'.occupied| == |s'.cells| == MAX_PKT && ReaderOk(s')
  {
    var held, held' := Held(s.reader), Held(s'.reader);
    forall j | 0 <= j < |held'|
      ensures HeldOk(s', held'[j])
    {
      if j < |held| {
        assert HeldOk(s, held[j]);
      } else {
        assert SlotOk(s, Index(s.reader.start, s.reader.tries));
      }
    }
  }

  /** Zeroing a slot leaves the other copies' slots as they are. */
  lemma ZeroKeepsReader(s: State, s': State)
    requires |s.occupied| == |s.cells| == MAX_PKT && ReaderOk(s) && ReaderStep(s, s', Zero)
    ensures |s'.occupied| == |s'.cells| == MAX_PKT && ReaderOk(s')
  {
    NextToClear(s);
    var held, held', c := Held(s.reader), Held(s'.reader), s.reader.copies[s.reader.done];
    forall j | 0 <= j < |held'|
      ensures HeldOk(s', held'[j]) && held'[j].place != c.place
    {
      assert held'[j] == held[j + 1] && HeldOk(s, held[j + 1]);
      assert Index(s.reader.start, held'[j].place) != Index(s.reader.start, c.place);
    }
    forall i, j | 0 <= i < j < |held'|
      ensures held'[i].place != held'[j].place
    {
      assert held'[i] == held[i + 1] && held'[j] == held[j + 1];
    }
  }

  /** ... and so does taking its mark away. */
  lemma ReleaseKeepsReader(s: State, s': State)
    requires |s.occupied| == |s.cells| == MAX_PKT && ReaderOk(s) && ReaderStep(s, s', Release)
    ensures |s'.occupied| == |s'.cells| == MAX_PKT && ReaderOk(s')
  {
    hide Index;
    var held, held', c := Held(s.reader), Held(s'.reader), s.reader.copies[s.reader.done];
    assert held' == held;
    forall j | 0 <= j < |held'|
      ensures HeldOk(s', held'[j])
    {
      assert held'[j] == held[j] && HeldOk(s, held[j]);
      IndexApart(s.reader.start, held'[j].place, c.place);
    }
  }

  lemma ReaderKeepsReader(s: State, s': State, step: Step)
    requires Inv(s) && ReaderStep(s, s', step)
    ensures |s'.occupied| == |s'.cells| == MAX_PKT && ReaderOk(s')
  {
    hide HandlerOk, DeliveredOk, ReaderOk;
    assert |s.occupied| == |s.cells| == MAX_PKT;
    match s.reader
    case Zeroing(_, _, _) =>
      hide SlotsOk;
      ReleaseKeepsReader(s, s');
    case Clearing(_, copies, done) =>
      if done < |copies| {
        ZeroKeepsReader(s, s');
      } else {
        NothingHeld(s');
      }
    case _ =>
      ScanKeepsReader(s, s', step);
  }

  lemma NothingHeld(s: State)
    requires |s.occupied| == |s.cells| == MAX_PKT && s.reader == Away
    ensures ReaderOk(s)
  {
  }

  lemma ZeroKeepsOthersHeld(s: State, s': State, i: nat)
    requires |s.occupied| == |s.cells| == MAX_PKT && ReaderStep(s, s', Zero)
    requires i != Index(s.reader.start, s.reader.copies[s.reader.done].place)
    ensures HeldSlot(s, i) <==> HeldSlot(s', i)
  {
    var held, held' := Held(s.reader), Held(s'.reader);
    assert held == [s.reader.copies[s.reader.done]] + held';
    assert Start(s'.reader) == Start(s.reader) == s.reader.start;
    hide Index, Held, ReaderStep;
    if j :| 0 <= j < |held| && i == Index(Start(s.reader), held[j].place) {
      assert held'[j - 1] == held[j];
    }
    if j :| 0 <= j < |held'| && i == Index(Start(s'.reader), held'[j].place) {
      assert held[j + 1] == held'[j];
    }
  }

  /** Zeroing, then unmarking, a slot that has been handed over changes no buffered packet. */
  lemma ClearKeepsBuffered(s: State, s': State, step: Step, id: Arrival, i: nat)
    requires Inv(s) && ReaderStep(s, s', step) && (step == Zero || step == Release)
    ensures BufferedAt(s, id, i) <==> BufferedAt(s', id, i)
  {
    hide HandlerOk, DeliveredOk, SlotOk, Init;
    var at := Index(s.reader.start, s.reader.copies[s.reader.done].place);
    if step == Zero {
      NextToClear(s);
      if i != at {
        ZeroKeepsOthersHeld(s, s', i);
      } else {
        assert at == Index(Start(s.reader), Held(s.reader)[0].place);
        assert HeldSlot(s, i);
      }
    } else {
      assert Held(s'.reader) == Held(s.reader);
    }
  }

  /** Outside a copy to user space the same packets are buffered before and after. */
  lemma SameBuffered(s: State, s': State, step: Step, id: Arrival, i: nat)
    requires Inv(s) && ReaderStep(s, s', step) && step != CopyOut
    ensures BufferedAt(s, id, i) <==> BufferedAt(s', id, i)
  {
    hide SlotsOk, HandlerOk, DeliveredOk, SlotOk, HeldOk;
    if step == Zero || step == Release {
      ClearKeepsBuffered(s, s', step, id, i);
    }
  }

  lemma ReaderKeepsDelivered(s: State, s': State, step: Step)
    requires Inv(s) && ReaderStep(s, s', step) && step != CopyOut
    ensures |s'.occupied| == |s'.cells| == MAX_PKT && DeliveredOk(s')
  {
    ReaderLeaves(s, s', step);
    hide HandlerOk, ReaderOk, SlotsOk, BufferedAt, HeldOk, HeldSlot, ReaderStep, Held, HandedOver;
    forall id: Arrival, i: nat
      ensures BufferedAt(s, id, i) <==> BufferedAt(s', id, i)
    {
      SameBuffered(s, s', step, id, i);
    }
    forall id | id in s'.accepted && Data(id) !in s'.delivered
      ensures Buffered(s', id)
    {
      var i :| BufferedAt(s, id, i);
      assert BufferedAt(s', id, i);
    }
  }

  /** What a step of the reader other than the copy to user space leaves alone. */
  lemma ReaderLeaves(s: State, s': State, step: Step)
    requires Inv(s) && ReaderStep(s, s', step) && step != CopyOut
    ensures |s'.occupied| == |s'.cells| == MAX_PKT && s'.delivered == s.delivered && s'.accepted == s.accepted
    ensures HandedOver(s'.reader) ==>
              HandedOver(s.reader) && forall j :: 0 <= j < |Held(s'.reader)| ==> Held(s'.reader)[j] in Held(s.reader)
  {
    hide HandlerOk, SlotsOk, DeliveredOk, Index;
    var held, held' := Held(s.reader), Held(s'.reader);
    assert step == Zero ==> held == [s.reader.copies[s.reader.done]] + held';
    assert step == Release ==> held == held';
  }

  /** What the scan took are buffered packets, all different. */
  lemma TakenAreBuffered(s: State, j: nat)
    requires Inv(s) && s.reader.Copying? && j < |s.reader.copies|
    ensures var c := s.reader.copies[j];
            c.cell.Data? && c.cell.id in s.accepted && BufferedAt(s, c.cell.id, Index(s.reader.start, c.place))
  {
    hide HandlerOk, DeliveredOk;
    assert HeldOk(s, Held(s.reader)[j]);
    assert SlotOk(s, Index(s.reader.start, s.reader.copies[j].place));
  }

  lemma TakenDiffer(s: State, j: nat, k: nat)
    requires Inv(s) && s.reader.Copying? && j < k < |s.reader.copies|
    ensures s.reader.copies[j].cell != s.reader.copies[k].cell
  {
    hide HandlerOk, DeliveredOk;
    assert HeldOk(s, Held(s.reader)[j]) && HeldOk(s, Held(s.reader)[k]);
    assert Index(s.reader.start, s.reader.copies[j].place) != Index(s.reader.start, s.reader.copies[k].place);
  }

  lemma SamePacketSameSlot(s: State, id: Arrival, i: nat, j: nat)
    requires SlotsOk(s) && BufferedAt(s, id, i) && BufferedAt(s, id, j)
    ensures i == j
  {
  }

  /** After a copy to user space, buffered is what was buffered and not taken. */
  lemma CopyOutBuffered(s: State, s': State, id: Arrival, i: nat)
    requires Inv(s) && ReaderStep(s, s', CopyOut)
    ensures BufferedAt(s', id, i) <==> BufferedAt(s, id, i) && Data(id) !in Cells(s.reader.copies)
  {
    hide HandlerOk, DeliveredOk, ReaderOk, SlotsOk;
    var copies := s.reader.copies;
    assert Held(s'.reader) == copies;
    if BufferedAt(s, id, i) && Data(id) in Cells(copies) {
      var j :| 0 <= j < |copies| && Cells(copies)[j] == Data(id);
      TakenAreBuffered(s, j);
      SamePacketSameSlot(s, id, i, Index(s.reader.start, copies[j].place));
      assert HeldSlot(s', i);
    }
    if BufferedAt(s, id, i) && HeldSlot(s', i) {
      var j :| 0 <= j < |copies| && i == Index(s.reader.start, copies[j].place);
      TakenAreBuffered(s, j);
      assert Cells(copies)[j] == Data(id);
    }
  }

  /** A copy to user space delivers what the scan took, nothing of it for the second time. */
  lemma CopyOutDelivers(s: State, s': State)
    requires Inv(s) && ReaderStep(s, s', CopyOut)
    ensures |s'.occupied| == |s'.cells| == MAX_PKT && DeliveredOk(s')
  {
    hide HandlerOk, ReaderOk, BufferedAt, HeldOk, HeldSlot;
    var cells := Cells(s.reader.copies);
    forall j | 0 <= j < |cells|
      ensures cells[j].Data? && cells[j].id in s.accepted && cells[j] !in s.delivered
    {
      TakenAreBuffered(s, j);
    }
    forall j, k | 0 <= j < k < |cells|
      ensures cells[j] != cells[k]
    {
      TakenDiffer(s, j, k);
    }
    forall id: Arrival, i: nat
      ensures BufferedAt(s', id, i) <==> BufferedAt(s, id, i) && Data(id) !in cells
    {
      CopyOutBuffered(s, s', id, i);
    }
    forall id | id in s'.accepted && Data(id) !in s'.delivered
      ensures Buffered(s', id)
    {
      var i :| BufferedAt(s, id, i);
      assert BufferedAt(s', id, i);
    }
    assert Held(s'.reader) == s.reader.copies;
    forall j | 0 <= j < |cells|
      ensures Held(s'.reader)[j].cell in s'.delivered
    {
      assert s'.delivered[|s.delivered| + j] == cells[j];
    }
  }

  lemma NextInv(s: State, s': State, step: Step)
    requires Inv(s) && Next(s, s', step)
    ensures Inv(s')
  {
    hide SlotsOk, HandlerOk, ReaderOk, DeliveredOk;
    if HandlerStep(s, s', step) {
      HandlerKeepsSlots(s, s', step);
      HandlerKeepsHandler(s, s', step);
      HandlerKeepsReader(s, s', step);
      HandlerKeepsDelivered(s, s', step);
    } else {
      ReaderKeepsSlots(s, s', step);
      ReaderKeepsHandler(s, s', step);
      ReaderKeepsReader(s, s', step);
      if step == CopyOut {
        CopyOutDelivers(s, s');
      } else {
        ReaderKeepsDelivered(s, s', step);
      }
    }
  }

  /** A run from the start, by any interleaving of the two. */
  ghost predicate Run(trace: seq<State>, steps: seq<Step>) {
    && |trace| == |steps| + 1 && Init(trace[0])
    && forall i :: 0 <= i < |steps| ==> Next(trace[i], trace[i + 1], steps[i])
  }

  lemma {:induction false} RunInv(trace: seq<State>, steps: seq<Step>, n: nat)
    requires Run(trace, steps) && n < |trace|
    ensures Inv(trace[n])
  {
    if n == 0 {
      InitInv(trace[0]);
    } else {
      RunInv(trace, steps, n - 1);
      NextInv(trace[n - 1], trace[n], steps[n - 1]);
    }
  }

  /** In every reachable state: what user space got are accepted packets, no
      packet twice, and each accepted packet is either delivered or buffered. */
  lemma ExactlyOnce(trace: seq<State>, steps: seq<Step>, n: nat)
    requires Run(trace, steps) && n < |trace|
    ensures forall k ::
              0 <= k < |trace[n].delivered| ==>
                trace[n].delivered[k].Data? && trace[n].delivered[k].id in trace[n].accepted
    ensures forall k, l :: 0 <= k < l < |trace[n].delivered| ==> trace[n].delivered[k] != trace[n].delivered[l]
    ensures forall id: Arrival ::
              id in trace[n].accepted ==> (Data(id) in trace[n].delivered <==> !Buffered(trace[n], id))
    ensures forall id: Arrival :: id < trace[n].arrivals <==>
              id in trace[n].accepted || id in trace[n].dropped || InHand(trace[n].handler, id)
    ensures trace[n].accepted !! trace[n].dropped
  {
    RunInv(trace, steps, n);
  }

  /** A failed copy to user space loses nothing. */
  lemma FailedCopyLosesNothing(trace: seq<State>, steps: seq<Step>, n: nat)
    requires Run(trace, steps) && n < |steps| && steps[n] == CopyFault
    ensures trace[n + 1].delivered == trace[n].delivered
    ensures forall id: Arrival :: Buffered(trace[n + 1], id) <==> Buffered(trace[n], id)
  {
    RunInv(trace, steps, n);
    var s, s' := trace[n], trace[n + 1];
    assert Next(s, s', steps[n]);
    forall id: Arrival
      ensures Buffered(s', id) <==> Buffered(s, id)
    {
      forall i: nat
        ensures BufferedAt(s, id, i) <==> BufferedAt(s', id, i)
      {
        SameBuffered(s, s', CopyFault, id, i);
      }
    }
  }

  /** Clearing erases only what has been delivered: no packet that is still
      buffered, whenever it arrived, is touched. */
  lemma ClearErasesDeliveredOnly(trace: seq<State>, steps: seq<Step>, n: nat)
    requires Run(trace, steps) && n < |steps| && (steps[n] == Zero || steps[n] == Release)
    ensures forall id: Arrival, i: nat :: BufferedAt(trace[n], id, i) ==> BufferedAt(trace[n + 1], id, i)
    ensures forall i ::
              0 <= i < MAX_PKT && trace[n].cells[i] != trace[n + 1].cells[i] ==> trace[n].cells[i] in trace[n].delivered
  {
    RunInv(trace, steps, n);
    var s, s' := trace[n], trace[n + 1];
    assert Next(s, s', steps[n]);
    forall id: Arrival, i: nat | BufferedAt(s, id, i)
      ensures BufferedAt(s', id, i)
    {
      SameBuffered(s, s', steps[n], id, i);
    }
    if s.reader.Clearing? && s.reader.done < |s.reader.copies| {
      NextToClear(s);
    }
  }
}
