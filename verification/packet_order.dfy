/** The order of delivery when the receive handler and read are interleaved:
    exactly which reads let a packet overtake an older one. */
module PacketOrder {
  import opened PacketProtocol

  predicate Earlier(c: Cell, d: Cell) {
    c.Data? && d.Data? && c.id < d.id
  }

  /** Packets reach user space in the order they arrived: each after all
      delivered before it, and before all that are still buffered. */
  ghost predicate InOrder(s: State) {
    && (forall k, l :: 0 <= k < l < |s.delivered| ==> Earlier(s.delivered[k], s.delivered[l]))
    && (forall k, id :: 0 <= k < |s.delivered| && Buffered(s, id) ==> Earlier(s.delivered[k], Data(id)))
  }

  /** The place of a slot in a round that starts at `start`. */
  function Place(start: nat, i: nat): (p: nat)
    requires start < MAX_PKT && i < MAX_PKT
    ensures p < MAX_PKT && Index(start, p) == i
  {
    if start <= i then i - start else i + MAX_PKT - start
  }

  lemma PlaceOfIndex(start: nat, p: nat)
    requires start < MAX_PKT && p < MAX_PKT
    ensures Place(start, Index(start, p)) == p
  {
  }

  predicate Reading(r: Reader) {
    r.Scanning? || r.Taking? || r.Copying?
  }

  predicate Looking(r: Reader) {
    r.Scanning? || r.Taking?
  }

  /** Beyond the invariant: the packet in hand is the newest, and the scan copies place by place. */
  ghost predicate InvMore(s: State) {
    && Inv(s)
    && (forall id: Arrival :: InHand(s.handler, id) ==> id + 1 == s.arrivals)
    && (forall i: nat, id: Arrival :: s.handler == Marked(i) && BufferedAt(s, id, i) ==> id + 1 == s.arrivals)
    && (Reading(s.reader) ==> s.reader.start < MAX_PKT && PlacesAscend(s.reader.copies))
  }

  predicate PlacesAscend(copies: seq<Copy>) {
    forall i, j :: 0 <= i < j < |copies| ==> copies[i].place < copies[j].place
  }

  /** The handler takes no packet out of the buffer, and adds only the one it marks. */
  lemma HandlerBuffers(s: State, s': State, step: Step, id: Arrival, i: nat)
    requires Inv(s) && HandlerStep(s, s', step)
    ensures BufferedAt(s', id, i) <==> BufferedAt(s, id, i) || (step == Mark && s.handler == Filled(id, i))
  {
    hide DeliveredOk, SlotOk;
    assert Held(s'.reader) == Held(s.reader);
  }

  /** No step but the copy to user space takes a packet out of the buffer, and only Mark adds one. */
  lemma StepBuffers(s: State, s': State, step: Step, id: Arrival, i: nat)
    requires Inv(s) && Next(s, s', step) && step != CopyOut
    ensures BufferedAt(s', id, i) <==> BufferedAt(s, id, i) || (step == Mark && s.handler == Filled(id, i))
  {
    if HandlerStep(s, s', step) {
      HandlerBuffers(s, s', step, id, i);
    } else {
      SameBuffered(s, s', step, id, i);
    }
  }

  lemma BufferedKeeps(s: State, s': State, step: Step, id: Arrival, i: nat)
    requires Inv(s) && Next(s, s', step) && BufferedAt(s', id, i)
    ensures BufferedAt(s, id, i) || (step == Mark && s.handler == Filled(id, i))
  {
    if step == CopyOut {
      CopyOutBuffered(s, s', id, i);
    } else {
      StepBuffers(s, s', step, id, i);
    }
  }

  /** The scan goes from place to place. */
  lemma ScanAscends(s: State, s': State, step: Step)
    requires Inv(s) && Next(s, s', step) && Reading(s'.reader)
    requires Reading(s.reader) ==> s.reader.start < MAX_PKT && PlacesAscend(s.reader.copies)
    ensures s'.reader.start < MAX_PKT && PlacesAscend(s'.reader.copies)
  {
    hide SlotsOk, HandlerOk, DeliveredOk, HeldOk;
    assert s.currentIndex < MAX_PKT by { StartBelow(s); }
  }

  lemma StartBelow(s: State)
    requires Inv(s)
    ensures s.currentIndex < MAX_PKT
  {
  }

  lemma NewestInHand(s: State, s': State, step: Step, id: Arrival)
    requires InvMore(s) && Next(s, s', step)
    ensures InHand(s'.handler, id) ==> id + 1 == s'.arrivals
  {
    hide Inv;
    assert |s.occupied| == |s.cells| == MAX_PKT;
    assert InHand(s.handler, id) ==> id + 1 == s.arrivals;
  }

  lemma NewestMarked(s: State, s': State, step: Step, id: Arrival, i: nat)
    requires InvMore(s) && Next(s, s', step) && s'.handler == Marked(i) && BufferedAt(s', id, i)
    ensures id + 1 == s'.arrivals
  {
    BufferedKeeps(s, s', step, id, i);
    hide Inv, BufferedAt;
    assert InHand(s.handler, id) ==> id + 1 == s.arrivals;
  }

  lemma NextInvMore(s: State, s': State, step: Step)
    requires InvMore(s) && Next(s, s', step)
    ensures InvMore(s')
  {
    hide Inv, Next, BufferedAt;
    NextInv(s, s', step);
    forall id: Arrival
      ensures InHand(s'.handler, id) ==> id + 1 == s'.arrivals
    {
      NewestInHand(s, s', step, id);
    }
    forall i: nat, id: Arrival | s'.handler == Marked(i) && BufferedAt(s', id, i)
      ensures id + 1 == s'.arrivals
    {
      NewestMarked(s, s', step, id, i);
    }
    if Reading(s'.reader) {
      ScanAscends(s, s', step);
    }
  }

  lemma {:induction false} RunInvMore(trace: seq<State>, steps: seq<Step>, n: nat)
    requires Run(trace, steps) && n < |trace|
    ensures InvMore(trace[n])
  {
    if n == 0 {
      InitInv(trace[0]);
    } else {
      RunInvMore(trace, steps, n - 1);
      NextInvMore(trace[n - 1], trace[n], steps[n - 1]);
    }
  }

  /** The read takes x, and an older packet y neither before it nor ever earlier. */
  ghost predicate Overtakes(s: State, x: Arrival, y: Arrival)
    requires s.reader.Copying?
  {
    y < x && Buffered(s, y) && exists j: nat :: TakenFirst(s.reader.copies, x, y, j)
  }

  predicate TakenFirst(copies: seq<Copy>, x: Arrival, y: Arrival, j: nat) {
    j < |copies| && copies[j].cell == Data(x) && forall i :: 0 <= i < j ==> copies[i].cell != Data(y)
  }

  /** A copy to user space out of order shows what has overtaken what. */
  lemma OvertakingShows(s: State, s': State, x: Arrival, y: Arrival)
    requires Inv(s) && ReaderStep(s, s', CopyOut) && Overtakes(s, x, y)
    ensures !InOrder(s')
  {
    var copies, n := s.reader.copies, |s.delivered|;
    var j: nat :| TakenFirst(copies, x, y, j);
    assert s'.delivered == s.delivered + Cells(copies);
    assert s'.delivered[n + j] == Cells(copies)[j] == Data(x);
    if i: nat :| i < |copies| && copies[i].cell == Data(y) {
      assert s'.delivered[n + i] == Cells(copies)[i] == Data(y);
      assert n + j < n + i && !Earlier(s'.delivered[n + j], s'.delivered[n + i]);
    } else {
      var i :| BufferedAt(s, y, i);
      CopyOutBuffered(s, s', y, i);
      assert Buffered(s', y);
      assert !Earlier(s'.delivered[n + j], Data(y));
    }
  }

  /** A taken packet comes before every buffered one that was not taken before it. */
  lemma TakenInTurn(s: State, k: nat, y: Arrival)
    requires Inv(s) && s.reader.Copying? && k < |s.reader.copies| && Buffered(s, y)
    requires forall x: Arrival :: !Overtakes(s, x, y)
    requires forall i :: 0 <= i <= k ==> s.reader.copies[i].cell != Data(y)
    ensures Earlier(s.reader.copies[k].cell, Data(y))
  {
    TakenAreBuffered(s, k);
    hide Inv, BufferedAt;
    var x := s.reader.copies[k].cell.id;
    assert TakenFirst(s.reader.copies, x, y, k);
    assert !Overtakes(s, x, y);
  }

  lemma DeliveredAscend(s: State, k: nat, l: nat)
    requires Inv(s) && InOrder(s) && s.reader.Copying?
    requires forall x: Arrival, y: Arrival :: !Overtakes(s, x, y)
    requires k < l < |s.delivered| + |s.reader.copies|
    ensures var d := s.delivered + Cells(s.reader.copies); Earlier(d[k], d[l])
  {
    var n := |s.delivered|;
    hide Inv, BufferedAt, Buffered, Overtakes;
    if n <= l {
      AfterDelivered(s, l - n);
      if n <= k {
        ApartInTurn(s, k - n, l - n);
      }
    }
  }

  lemma NothingOvertaken(s: State, s': State)
    requires Inv(s) && InOrder(s) && ReaderStep(s, s', CopyOut)
    requires forall x: Arrival, y: Arrival :: !Overtakes(s, x, y)
    ensures InOrder(s')
  {
    var copies, n := s.reader.copies, |s.delivered|;
    assert s'.delivered == s.delivered + Cells(copies);
    hide Inv, BufferedAt, Buffered, Overtakes, ReaderStep;
    forall k, l | 0 <= k < l < |s'.delivered|
      ensures Earlier(s'.delivered[k], s'.delivered[l])
    {
      DeliveredAscend(s, k, l);
    }
    forall k, id | 0 <= k < |s'.delivered| && Buffered(s', id)
      ensures Earlier(s'.delivered[k], Data(id))
    {
      LeftInTurn(s, s', id);
      if n <= k {
        assert s'.delivered[k] == copies[k - n].cell;
        TakenInTurn(s, k - n, id);
      }
    }
  }

  lemma AfterDelivered(s: State, j: nat)
    requires Inv(s) && s.reader.Copying? && j < |s.reader.copies| && InOrder(s)
    ensures forall k :: 0 <= k < |s.delivered| ==> Earlier(s.delivered[k], s.reader.copies[j].cell)
  {
    TakenAreBuffered(s, j);
    hide Inv, BufferedAt;
    assert Buffered(s, s.reader.copies[j].cell.id);
  }

  lemma ApartInTurn(s: State, i: nat, j: nat)
    requires Inv(s) && s.reader.Copying? && i < j < |s.reader.copies|
    requires forall x: Arrival, y: Arrival :: !Overtakes(s, x, y)
    ensures Earlier(s.reader.copies[i].cell, s.reader.copies[j].cell)
  {
    TakenAreBuffered(s, j);
    var y := s.reader.copies[j].cell.id;
    forall k | 0 <= k <= i
      ensures s.reader.copies[k].cell != Data(y)
    {
      TakenDiffer(s, k, j);
    }
    TakenInTurn(s, i, y);
  }

  lemma LeftInTurn(s: State, s': State, id: Arrival)
    requires Inv(s) && ReaderStep(s, s', CopyOut) && Buffered(s', id)
    ensures Buffered(s, id) && forall i :: 0 <= i < |s.reader.copies| ==> s.reader.copies[i].cell != Data(id)
  {
    var i :| BufferedAt(s', id, i);
    CopyOutBuffered(s, s', id, i);
    forall j | 0 <= j < |s.reader.copies|
      ensures s.reader.copies[j].cell != Data(id)
    {
      assert Cells(s.reader.copies)[j] == s.reader.copies[j].cell;
    }
  }

  /** A copy to user space keeps the order exactly if nothing in it overtakes. */
  lemma CopyOutOrder(s: State, s': State)
    requires Inv(s) && InOrder(s) && ReaderStep(s, s', CopyOut)
    ensures InOrder(s') <==> forall x: Arrival, y: Arrival :: !Overtakes(s, x, y)
  {
    if x: Arrival, y: Arrival :| Overtakes(s, x, y) {
      OvertakingShows(s, s', x, y);
    } else {
      NothingOvertaken(s, s');
    }
  }

  /** Every other step keeps the order. */
  lemma OtherOrder(s: State, s': State, step: Step)
    requires InvMore(s) && InOrder(s) && Next(s, s', step) && step != CopyOut
    ensures InOrder(s')
  {
    DeliveredIsOld(s, s', step);
    hide Inv, Next, BufferedAt, HandlerOk, ReaderStep, HandlerStep;
    forall k, id: Arrival | 0 <= k < |s'.delivered| && Buffered(s', id)
      ensures Earlier(s'.delivered[k], Data(id))
    {
      var i :| BufferedAt(s', id, i);
      StepBuffers(s, s', step, id, i);
      assert InHand(s.handler, id) ==> id + 1 == s.arrivals;
      if BufferedAt(s, id, i) {
        assert Buffered(s, id);
      }
    }
  }

  lemma DeliveredIsOld(s: State, s': State, step: Step)
    requires Inv(s) && Next(s, s', step) && step != CopyOut
    ensures s'.delivered == s.delivered
    ensures forall k :: 0 <= k < |s.delivered| ==> s.delivered[k].Data? && s.delivered[k].id < s.arrivals
    ensures forall k, id :: 0 <= k < |s.delivered| && InHand(s.handler, id) ==> s.delivered[k] != Data(id)
  {
    hide SlotsOk, ReaderOk;
  }

  /** From step a to state m one read is under way and has not copied out yet. */
  ghost predicate ReadFrom(trace: seq<State>, steps: seq<Step>, a: nat, m: nat) {
    && Run(trace, steps) && a < m < |trace| && steps[a] == StartScan
    && forall n :: a < n <= m ==> Reading(trace[n].reader)
  }

  /** A read that starts at step a and copies to user space at step b. */
  ghost predicate Read(trace: seq<State>, steps: seq<Step>, a: nat, b: nat) {
    ReadFrom(trace, steps, a, b) && b < |steps| && steps[b] == CopyOut
  }

  predicate Took(r: Reader, x: Arrival)
    requires Reading(r)
  {
    exists j :: 0 <= j < |r.copies| && r.copies[j].cell == Data(x)
  }

  /** The scan has passed the place and copied nothing there. */
  predicate Missed(r: Reader, q: nat) {
    && Reading(r) && (Looking(r) ==> q < r.tries)
    && forall j :: 0 <= j < |r.copies| ==> r.copies[j].place != q
  }

  /** The packet x at slot i would be seen before the older y at slot j, or y has been missed. */
  ghost predicate Jumps(s: State, start: nat, x: Arrival, i: nat, y: Arrival, j: nat)
    requires start < MAX_PKT
  {
    y < x && BufferedAt(s, y, j) && i < MAX_PKT && j < MAX_PKT
    && (Place(start, i) < Place(start, j) || Missed(s.reader, Place(start, j)))
  }

  /** x is buffered when the read starts at step a, or marked at step k of it. */
  ghost predicate Comes(trace: seq<State>, steps: seq<Step>, a: nat, k: nat, x: Arrival, i: nat)
    requires |trace| == |steps| + 1 && k < |steps|
  {
    || (k == a && BufferedAt(trace[k], x, i))
    || (a < k && steps[k] == Mark && trace[k].handler == Filled(x, i))
  }

  /** At step k of the read a packet that the read will take comes to lie before an older one. */
  ghost predicate CrossedAt(trace: seq<State>, steps: seq<Step>, a: nat, b: nat, k: nat,
                            x: Arrival, i: nat, y: Arrival, j: nat)
    requires Read(trace, steps, a, b)
  {
    && a <= k < b && trace[a].currentIndex < MAX_PKT
    && Comes(trace, steps, a, k, x, i) && Took(trace[b].reader, x)
    && Jumps(trace[k], trace[a].currentIndex, x, i, y, j)
  }

  ghost predicate Crossed(trace: seq<State>, steps: seq<Step>, a: nat, b: nat)
    requires Read(trace, steps, a, b)
  {
    exists k: nat, x: Arrival, i: nat, y: Arrival, j: nat :: CrossedAt(trace, steps, a, b, k, x, i, y, j)
  }

  /** One step while a read is under way. */
  ghost predicate Within(s: State, s': State, step: Step) {
    InvMore(s) && Next(s, s', step) && Reading(s.reader) && Reading(s'.reader)
  }

  lemma WithinScan(s: State, s': State, step: Step)
    requires Within(s, s', step)
    ensures step != CopyOut && s'.reader.start == s.reader.start && s.reader.copies <= s'.reader.copies
    ensures !Looking(s.reader) ==> !Looking(s'.reader) && s'.reader.copies == s.reader.copies
    ensures Looking(s.reader) && Looking(s'.reader) ==> s.reader.tries <= s'.reader.tries
    ensures forall c :: c in s'.reader.copies && c !in s.reader.copies ==>
              s.reader.Taking? && c == Copy(s.reader.tries, s.cells[Index(s.reader.start, s.reader.tries)])
  {
    hide Inv, HandlerStep;
    if ReaderStep(s, s', step) {
    } else {
      HandlerLeavesReader(s, s', step);
    }
  }

  lemma HandlerLeavesReader(s: State, s': State, step: Step)
    requires |s.occupied| == |s.cells| == MAX_PKT && HandlerStep(s, s', step)
    ensures s'.reader == s.reader && step != CopyOut && step != StartScan
  {
  }

  lemma MissedForGood(s: State, s': State, step: Step, q: nat)
    requires Within(s, s', step) && Missed(s.reader, q)
    ensures Missed(s'.reader, q)
  {
    WithinScan(s, s', step);
    hide Inv, Next;
    forall j | 0 <= j < |s'.reader.copies|
      ensures s'.reader.copies[j].place != q
    {
      assert s'.reader.copies[j] in s.reader.copies || s'.reader.copies[j].place == s.reader.tries;
    }
  }

  /** What lies at place q is taken before anything behind it. */
  predicate InTurn(r: Reader, q: nat, y: Arrival) {
    && Reading(r)
    && (Looking(r) && q < r.tries ==> Copy(q, Data(y)) in r.copies)
    && forall c :: c in r.copies && q < c.place ==> Copy(q, Data(y)) in r.copies
  }

  lemma StaysInTurn(s: State, s': State, step: Step, y: Arrival, i: nat)
    requires Within(s, s', step) && BufferedAt(s, y, i) && InTurn(s.reader, Place(s.reader.start, i), y)
    ensures InTurn(s'.reader, Place(s.reader.start, i), y)
  {
    WithinScan(s, s', step);
    var q := Place(s.reader.start, i);
    hide Inv, HandlerStep, Place;
    assert Index(s.reader.start, q) == i;
    if HandlerStep(s, s', step) {
      HandlerLeavesReader(s, s', step);
    } else if s.reader.Taking? && q == s.reader.tries {
      assert Copy(q, Data(y)) in s'.reader.copies;
    }
  }

  lemma FirstOfRead(s: State, s': State)
    requires InvMore(s) && Next(s, s', StartScan)
    ensures s.reader == Away && s'.reader == Scanning(s.currentIndex, 0, []) && s.currentIndex < MAX_PKT
  {
    hide ReaderOk, DeliveredOk;
  }

  /** The steps of a read are steps within it, and its start does not change. */
  lemma {:induction false} WithinRead(trace: seq<State>, steps: seq<Step>, a: nat, m: nat)
    requires ReadFrom(trace, steps, a, m)
    ensures InvMore(trace[m]) && trace[m].reader.start == trace[a].currentIndex < MAX_PKT
    ensures m == a + 1 ==> trace[m].reader == Scanning(trace[a].currentIndex, 0, [])
    ensures m > a + 1 ==> Within(trace[m - 1], trace[m], steps[m - 1])
  {
    hide Run, InvMore, Next, Within;
    if m == a + 1 {
      FirstInRead(trace, steps, a);
    } else {
      assert ReadFrom(trace, steps, a, m - 1);
      hide ReadFrom;
      WithinRead(trace, steps, a, m - 1);
      LaterInRead(trace, steps, a, m);
    }
  }

  lemma FirstInRead(trace: seq<State>, steps: seq<Step>, a: nat)
    requires ReadFrom(trace, steps, a, a + 1)
    ensures InvMore(trace[a + 1]) && trace[a].currentIndex < MAX_PKT
    ensures trace[a + 1].reader == Scanning(trace[a].currentIndex, 0, [])
  {
    RunInvMore(trace, steps, a);
    RunInvMore(trace, steps, a + 1);
    StepOf(trace, steps, a);
    hide Run, InvMore, Next;
    FirstOfRead(trace[a], trace[a + 1]);
  }

  lemma LaterInRead(trace: seq<State>, steps: seq<Step>, a: nat, m: nat)
    requires ReadFrom(trace, steps, a, m) && m > a + 1
    ensures InvMore(trace[m]) && Within(trace[m - 1], trace[m], steps[m - 1])
    ensures Reading(trace[m].reader) && trace[m].reader.start == trace[m - 1].reader.start
  {
    hide *;
    TwoOfRead(trace, steps, a, m);
    var s, s' := trace[m - 1], trace[m];
    IsWithin(s, s', steps[m - 1]);
  }

  lemma TwoOfRead(trace: seq<State>, steps: seq<Step>, a: nat, m: nat)
    requires ReadFrom(trace, steps, a, m) && m > a + 1
    ensures |trace| == |steps| + 1 && m < |trace|
    ensures InvMore(trace[m - 1]) && InvMore(trace[m]) && Next(trace[m - 1], trace[m], steps[m - 1])
    ensures Reading(trace[m - 1].reader) && Reading(trace[m].reader)
  {
    hide Inv, Next, Init;
    RunInvMore(trace, steps, m - 1);
    RunInvMore(trace, steps, m);
    StepOf(trace, steps, m - 1);
  }

  lemma IsWithin(s: State, s': State, step: Step)
    requires InvMore(s) && Next(s, s', step) && Reading(s.reader) && Reading(s'.reader)
    ensures Within(s, s', step) && s'.reader.start == s.reader.start
  {
    WithinScan(s, s', step);
  }

  lemma StepOf(trace: seq<State>, steps: seq<Step>, n: nat)
    requires Run(trace, steps) && n < |steps|
    ensures Next(trace[n], trace[n + 1], steps[n])
  {
  }

  /** A packet in the buffer was there when the read started, or has been marked since. */
  lemma {:induction false} ComesSomehow(trace: seq<State>, steps: seq<Step>, a: nat, m: nat, x: Arrival, i: nat)
    returns (k: nat)
    requires ReadFrom(trace, steps, a, m) && BufferedAt(trace[m], x, i)
    ensures a <= k < m && Comes(trace, steps, a, k, x, i)
  {
    hide InvMore, BufferedAt, Init, Next;
    RunInvMore(trace, steps, m - 1);
    assert Next(trace[m - 1], trace[m], steps[m - 1]);
    InvOf(trace[m - 1]);
    BufferedKeeps(trace[m - 1], trace[m], steps[m - 1], x, i);
    k := m - 1;
    if m > a + 1 && BufferedAt(trace[m - 1], x, i) {
      k := ComesSomehow(trace, steps, a, m - 1, x, i);
    }
  }

  lemma InvOf(s: State)
    requires InvMore(s)
    ensures Inv(s) && |s.occupied| == |s.cells| == MAX_PKT && s.currentIndex < MAX_PKT
  {
  }

  /** It stays there while the read is under way. */
  lemma {:induction false} StaysBuffered(trace: seq<State>, steps: seq<Step>, a: nat, k: nat, m: nat, y: Arrival,
                                         j: nat)
    requires ReadFrom(trace, steps, a, m) && a <= k <= m && BufferedAt(trace[k], y, j)
    ensures BufferedAt(trace[m], y, j)
  {
    hide *;
    if k < m {
      StepInRead(trace, steps, a, m);
      if m > a + 1 {
        BeforeInRead(trace, steps, a, m);
        StaysBuffered(trace, steps, a, k, m - 1, y, j);
      }
      var s, s', step := trace[m - 1], trace[m], steps[m - 1];
      assert BufferedAt(s, y, j);
      StepBuffers(s, s', step, y, j);
    } else {
      assert m == k;
    }
  }

  lemma BeforeInRead(trace: seq<State>, steps: seq<Step>, a: nat, m: nat)
    requires ReadFrom(trace, steps, a, m) && m > a + 1
    ensures ReadFrom(trace, steps, a, m - 1) && m < |trace|
  {
  }

  lemma StepInRead(trace: seq<State>, steps: seq<Step>, a: nat, m: nat)
    requires ReadFrom(trace, steps, a, m)
    ensures Run(trace, steps) && |trace| == |steps| + 1 && a < m < |trace|
    ensures Inv(trace[m - 1]) && Next(trace[m - 1], trace[m], steps[m - 1]) && steps[m - 1] != CopyOut
  {
    hide Next, Init, Inv, Within;
    RunInvMore(trace, steps, m - 1);
    InvOf(trace[m - 1]);
    StepOf(trace, steps, m - 1);
    if m > a + 1 {
      WithinRead(trace, steps, a, m);
      WithinScan(trace[m - 1], trace[m], steps[m - 1]);
    }
  }

  /** A packet older than one the handler has seen is not marked any more. */
  lemma {:induction false} OlderWasThere(trace: seq<State>, steps: seq<Step>, k: nat, m: nat, x: Arrival, y: Arrival,
                                         j: nat)
    requires Run(trace, steps) && k <= m < |trace| && y < x < trace[k].arrivals && BufferedAt(trace[m], y, j)
    ensures BufferedAt(trace[k], y, j) && x < trace[m].arrivals
  {
    if k < m {
      hide InvMore, BufferedAt, Init, Next;
      RunInvMore(trace, steps, m - 1);
      InvOf(trace[m - 1]);
      assert Next(trace[m - 1], trace[m], steps[m - 1]);
      ArrivalsGrow(trace, steps, k, m - 1);
      BufferedKeeps(trace[m - 1], trace[m], steps[m - 1], y, j);
      NewestFilled(trace[m - 1]);
      OlderWasThere(trace, steps, k, m - 1, x, y, j);
      ArrivalsStep(trace[m - 1], trace[m], steps[m - 1]);
    }
  }

  lemma NewestFilled(s: State)
    requires InvMore(s)
    ensures s.handler.Filled? ==> s.handler.id + 1 == s.arrivals
  {
    assert s.handler.Filled? ==> InHand(s.handler, s.handler.id);
    hide Inv;
  }

  lemma ArrivalsStep(s: State, s': State, step: Step)
    requires Next(s, s', step)
    ensures s.arrivals <= s'.arrivals
  {
  }

  lemma {:induction false} ArrivalsGrow(trace: seq<State>, steps: seq<Step>, k: nat, m: nat)
    requires Run(trace, steps) && k <= m < |trace|
    ensures trace[k].arrivals <= trace[m].arrivals
  {
    hide Next, Init;
    if k < m {
      ArrivalsGrow(trace, steps, k, m - 1);
      assert Next(trace[m - 1], trace[m], steps[m - 1]);
      ArrivalsStep(trace[m - 1], trace[m], steps[m - 1]);
    }
  }

  /** What has been missed or is in its turn stays so until the read copies out. */
  lemma {:induction false} MissedTillThen(trace: seq<State>, steps: seq<Step>, a: nat, k: nat, m: nat, q: nat)
    requires ReadFrom(trace, steps, a, m) && a < k <= m && Missed(trace[k].reader, q)
    ensures Missed(trace[m].reader, q)
  {
    hide *;
    if k < m {
      StepInRead(trace, steps, a, m);
      BeforeInRead(trace, steps, a, m);
      MissedTillThen(trace, steps, a, k, m - 1, q);
      WithinRead(trace, steps, a, m);
      MissedForGood(trace[m - 1], trace[m], steps[m - 1], q);
    } else {
      assert m == k;
    }
  }

  lemma {:induction false} InTurnTillThen(trace: seq<State>, steps: seq<Step>, a: nat, k: nat, m: nat, y: Arrival,
                                          j: nat)
    requires ReadFrom(trace, steps, a, m) && a < k <= m && BufferedAt(trace[k], y, j)
    requires trace[a].currentIndex < MAX_PKT && j < MAX_PKT
    requires InTurn(trace[k].reader, Place(trace[a].currentIndex, j), y)
    ensures InTurn(trace[m].reader, Place(trace[a].currentIndex, j), y)
  {
    if k < m {
      hide Run, InTurn, BufferedAt, Place;
      InTurnTillThen(trace, steps, a, k, m - 1, y, j);
      StaysBuffered(trace, steps, a, k, m - 1, y, j);
      InTurnNext(trace, steps, a, m, y, j);
    }
  }

  lemma InTurnNext(trace: seq<State>, steps: seq<Step>, a: nat, m: nat, y: Arrival, j: nat)
    requires ReadFrom(trace, steps, a, m) && m > a + 1 && BufferedAt(trace[m - 1], y, j)
    requires trace[a].currentIndex < MAX_PKT && j < MAX_PKT
    requires InTurn(trace[m - 1].reader, Place(trace[a].currentIndex, j), y)
    ensures InTurn(trace[m].reader, Place(trace[a].currentIndex, j), y)
  {
    hide *;
    StepInRead(trace, steps, a, m);
    BeforeInRead(trace, steps, a, m);
    WithinRead(trace, steps, a, m - 1);
    WithinRead(trace, steps, a, m);
    StaysInTurn(trace[m - 1], trace[m], steps[m - 1], y, j);
  }

  /** What was copied at a place is the packet that lies there. */
  lemma CopiedIsThere(s: State, y: Arrival, i: nat, c: Copy)
    requires InvMore(s) && Reading(s.reader) && c in s.reader.copies && BufferedAt(s, y, i)
    ensures i < MAX_PKT && c.place < MAX_PKT
    ensures c.place == Place(s.reader.start, i) <==> c.cell == Data(y)
  {
    hide HandlerOk, DeliveredOk, SlotOk;
    var j :| 0 <= j < |s.reader.copies| && s.reader.copies[j] == c;
    assert HeldOk(s, Held(s.reader)[j]);
    PlaceOfIndex(s.reader.start, c.place);
    assert s.cells[Index(s.reader.start, c.place)] == c.cell;
  }

  /** A packet that lies in the buffer when a read starts is in its turn. */
  lemma InTurnAtStart(trace: seq<State>, steps: seq<Step>, a: nat, b: nat, y: Arrival, j: nat)
    requires ReadFrom(trace, steps, a, b) && BufferedAt(trace[a], y, j)
    ensures trace[a].currentIndex < MAX_PKT && j < MAX_PKT
    ensures InTurn(trace[b].reader, Place(trace[a].currentIndex, j), y)
  {
    hide Run, Place;
    RunInvMore(trace, steps, a);
    assert ReadFrom(trace, steps, a, a + 1);
    WithinRead(trace, steps, a, a + 1);
    StaysBuffered(trace, steps, a, a, a + 1, y, j);
    InTurnTillThen(trace, steps, a, a + 1, b, y, j);
  }

  /** So is one that lies there later and has not been missed. */
  lemma InTurnUnlessMissed(s: State, y: Arrival, j: nat)
    requires InvMore(s) && Reading(s.reader) && BufferedAt(s, y, j)
    ensures j < MAX_PKT && (Missed(s.reader, Place(s.reader.start, j)) || InTurn(s.reader, Place(s.reader.start, j), y))
  {
    var q := Place(s.reader.start, j);
    if k: nat :| k < |s.reader.copies| && s.reader.copies[k].place == q {
      CopiedIsThere(s, y, j, s.reader.copies[k]);
      assert Copy(q, Data(y)) in s.reader.copies;
    } else if Looking(s.reader) {
      hide SlotsOk, HandlerOk, DeliveredOk, HeldOk;
    }
  }

  lemma InTurnOrMissed(trace: seq<State>, steps: seq<Step>, a: nat, k: nat, b: nat, y: Arrival, j: nat)
    requires ReadFrom(trace, steps, a, b) && a <= k < b && BufferedAt(trace[k], y, j)
    ensures trace[a].currentIndex < MAX_PKT && j < MAX_PKT
    ensures || Missed(trace[k].reader, Place(trace[a].currentIndex, j))
            || InTurn(trace[b].reader, Place(trace[a].currentIndex, j), y)
  {
    hide Run, InTurn, Missed, Place, BufferedAt, InvMore;
    if k == a {
      InTurnAtStart(trace, steps, a, b, y, j);
    } else {
      assert ReadFrom(trace, steps, a, k);
      WithinRead(trace, steps, a, k);
      InTurnUnlessMissed(trace[k], y, j);
      if !Missed(trace[k].reader, Place(trace[a].currentIndex, j)) {
        InTurnTillThen(trace, steps, a, k, b, y, j);
      }
    }
  }

  lemma SeenBy(s: State, x: Arrival, i: nat)
    requires Inv(s) && (BufferedAt(s, x, i) || s.handler == Filled(x, i))
    ensures x < s.arrivals && i < MAX_PKT
  {
    hide ReaderOk, DeliveredOk;
    assert BufferedAt(s, x, i) ==> SlotOk(s, i);
  }

  /** What overtakes has come before the older one in the scan. */
  lemma OvertakingIsCrossing(trace: seq<State>, steps: seq<Step>, a: nat, b: nat, x: Arrival, y: Arrival)
    requires Read(trace, steps, a, b) && trace[b].reader.Copying? && Overtakes(trace[b], x, y)
    ensures Crossed(trace, steps, a, b)
  {
    WithinRead(trace, steps, a, b);
    InvOf(trace[b]);
    var copies, start := trace[b].reader.copies, trace[a].currentIndex;
    var n: nat :| TakenFirst(copies, x, y, n);
    var i, p := Index(start, copies[n].place), copies[n].place;
    TakenAreBuffered(trace[b], n);
    var j: nat :| BufferedAt(trace[b], y, j);
    hide Run, InvMore, Inv, BufferedAt, Missed, Place;
    var k := ComesSomehow(trace, steps, a, b, x, i);
    RunInvMore(trace, steps, k);
    InvOf(trace[k]);
    SeenBy(trace[k], x, i);
    OlderWasThere(trace, steps, k, b, x, y, j);
    InTurnOrMissed(trace, steps, a, k, b, y, j);
    CopiedIsThere(trace[b], x, i, copies[n]);
    if !Jumps(trace[k], start, x, i, y, j) {
      NotTakenLate(trace[b], x, y, n, j);
    }
    assert CrossedAt(trace, steps, a, b, k, x, i, y, j);
  }

  lemma NotTakenLate(s: State, x: Arrival, y: Arrival, n: nat, j: nat)
    requires InvMore(s) && s.reader.Copying? && BufferedAt(s, y, j) && y < x && TakenFirst(s.reader.copies, x, y, n)
    requires InTurn(s.reader, Place(s.reader.start, j), y)
    ensures s.reader.copies[n].place < Place(s.reader.start, j)
  {
    hide Inv, BufferedAt;
    CopiedIsThere(s, y, j, s.reader.copies[n]);
    var q := Place(s.reader.start, j);
    forall m | 0 <= m < |s.reader.copies| && s.reader.copies[m] == Copy(q, Data(y))
      ensures s.reader.copies[n].place < q
    {
      assert n <= m;
    }
  }

  /** What has come before an older one in the scan overtakes it. */
  lemma CrossingIsOvertaking(trace: seq<State>, steps: seq<Step>, a: nat, b: nat,
                             k: nat, x: Arrival, i: nat, y: Arrival, j: nat)
    requires Read(trace, steps, a, b) && CrossedAt(trace, steps, a, b, k, x, i, y, j)
    ensures trace[b].reader.Copying? && Overtakes(trace[b], x, y)
  {
    hide Run, InvMore, Inv, BufferedAt, Place, Missed, Overtakes, Next;
    var start := trace[a].currentIndex;
    WithinRead(trace, steps, a, b);
    StepInRead(trace, steps, a, b);
    StepOf(trace, steps, b);
    CopiesOut(trace[b], trace[b + 1]);
    StaysBuffered(trace, steps, a, k, b, y, j);
    ComeAndStay(trace, steps, a, b, k, x, i);
    var n: nat :| n < |trace[b].reader.copies| && trace[b].reader.copies[n].cell == Data(x);
    CopiedIsThere(trace[b], x, i, trace[b].reader.copies[n]);
    if Missed(trace[k].reader, Place(start, j)) {
      MissedInRead(trace, steps, a, k, b, Place(start, j));
    }
    BehindIsLater(trace[b], x, y, n, j);
  }

  lemma MissedInRead(trace: seq<State>, steps: seq<Step>, a: nat, k: nat, b: nat, q: nat)
    requires ReadFrom(trace, steps, a, b) && a <= k < b && Missed(trace[k].reader, q)
    ensures Missed(trace[b].reader, q)
  {
    if k == a {
      hide Inv;
      RunInvMore(trace, steps, a);
      StepOf(trace, steps, a);
      FirstOfRead(trace[a], trace[a + 1]);
    } else {
      MissedTillThen(trace, steps, a, k, b, q);
    }
  }

  lemma CopiesOut(s: State, s': State)
    requires Next(s, s', CopyOut)
    ensures s.reader.Copying? && ReaderStep(s, s', CopyOut)
  {
  }

  lemma ComeAndStay(trace: seq<State>, steps: seq<Step>, a: nat, b: nat, k: nat, x: Arrival, i: nat)
    requires ReadFrom(trace, steps, a, b) && a <= k < b && Comes(trace, steps, a, k, x, i)
    ensures BufferedAt(trace[b], x, i)
  {
    hide Run, ReadFrom, InvMore, Inv, Next, BufferedAt;
    if k == a {
      StaysBuffered(trace, steps, a, k, b, x, i);
    } else {
      StepInRead(trace, steps, a, b);
      RunInvMore(trace, steps, k);
      InvOf(trace[k]);
      StepOf(trace, steps, k);
      StepBuffers(trace[k], trace[k + 1], Mark, x, i);
      StaysBuffered(trace, steps, a, k + 1, b, x, i);
    }
  }

  lemma BehindIsLater(s: State, x: Arrival, y: Arrival, n: nat, j: nat)
    requires InvMore(s) && s.reader.Copying? && BufferedAt(s, y, j) && y < x && j < MAX_PKT
    requires n < |s.reader.copies| && s.reader.copies[n].cell == Data(x)
    requires s.reader.copies[n].place < Place(s.reader.start, j) || Missed(s.reader, Place(s.reader.start, j))
    ensures Overtakes(s, x, y)
  {
    hide Inv, BufferedAt;
    forall m | 0 <= m < n
      ensures s.reader.copies[m].cell != Data(y)
    {
      CopiedIsThere(s, y, j, s.reader.copies[m]);
    }
    assert TakenFirst(s.reader.copies, x, y, n);
  }

  /** A read keeps the order exactly if, neither when it starts nor when a
      packet is marked during it, one that it takes comes to lie before an
      older one, or an older one has been missed. */
  lemma ReadOrder(trace: seq<State>, steps: seq<Step>, a: nat, b: nat)
    requires Read(trace, steps, a, b) && InOrder(trace[b])
    ensures InOrder(trace[b + 1]) <==> !Crossed(trace, steps, a, b)
  {
    hide InOrder, InvMore, Inv, Overtakes, ReaderStep, Crossed, CrossedAt, Next, Init;
    WithinRead(trace, steps, a, b);
    InvOf(trace[b]);
    StepOf(trace, steps, b);
    CopiesOut(trace[b], trace[b + 1]);
    CopyOutOrder(trace[b], trace[b + 1]);
    if x: Arrival, y: Arrival :| Overtakes(trace[b], x, y) {
      OvertakingIsCrossing(trace, steps, a, b, x, y);
    } else {
      NothingCrosses(trace, steps, a, b);
    }
  }

  lemma NothingCrosses(trace: seq<State>, steps: seq<Step>, a: nat, b: nat)
    requires Read(trace, steps, a, b) && trace[b].reader.Copying?
    requires forall x: Arrival, y: Arrival :: !Overtakes(trace[b], x, y)
    ensures !Crossed(trace, steps, a, b)
  {
    hide Run, ReadFrom, Overtakes, CrossedAt;
    if k: nat, x: Arrival, i: nat, y: Arrival, j: nat :| CrossedAt(trace, steps, a, b, k, x, i, y, j) {
      CrossingIsOvertaking(trace, steps, a, b, k, x, i, y, j);
    }
  }

  /** Every copy to user space belongs to a read. */
  lemma {:induction false} ReadBegins(trace: seq<State>, steps: seq<Step>, m: nat) returns (a: nat)
    requires Run(trace, steps) && m < |trace| && Reading(trace[m].reader)
    ensures ReadFrom(trace, steps, a, m)
  {
    hide Next;
    StepOf(trace, steps, m - 1);
    a := m - 1;
    BeginsOrGoesOn(trace[m - 1], trace[m], steps[m - 1]);
    if Reading(trace[m - 1].reader) {
      a := ReadBegins(trace, steps, m - 1);
    }
  }

  lemma BeginsOrGoesOn(s: State, s': State, step: Step)
    requires Next(s, s', step) && Reading(s'.reader)
    ensures step == StartScan || Reading(s.reader)
  {
  }

  /** Over whole runs, whatever the interleaving: packets are delivered in
      order exactly if no read is crossed. */
  lemma RunOrder(trace: seq<State>, steps: seq<Step>)
    requires Run(trace, steps)
    ensures (forall n :: 0 <= n < |trace| ==> InOrder(trace[n])) <==>
            (forall a: nat, b: nat :: Read(trace, steps, a, b) ==> !Crossed(trace, steps, a, b))
  {
    hide InOrder, Crossed;
    if forall n :: 0 <= n < |trace| ==> InOrder(trace[n]) {
      forall a: nat, b: nat | Read(trace, steps, a, b)
        ensures !Crossed(trace, steps, a, b)
      {
        ReadOrder(trace, steps, a, b);
      }
    }
    if forall a: nat, b: nat :: Read(trace, steps, a, b) ==> !Crossed(trace, steps, a, b) {
      forall n | 0 <= n < |trace|
        ensures InOrder(trace[n])
      {
        UncrossedRun(trace, steps, n);
      }
    }
  }

  lemma {:induction false} UncrossedRun(trace: seq<State>, steps: seq<Step>, n: nat)
    requires Run(trace, steps) && n < |trace|
    requires forall a: nat, b: nat :: Read(trace, steps, a, b) && b < n ==> !Crossed(trace, steps, a, b)
    ensures InOrder(trace[n])
  {
    if n == 0 {
      assert Init(trace[0]);
    } else {
      hide InOrder, Crossed, Next, InvMore, Init;
      UncrossedRun(trace, steps, n - 1);
      StepOf(trace, steps, n - 1);
      RunInvMore(trace, steps, n - 1);
      if steps[n - 1] == CopyOut {
        CopiesOut(trace[n - 1], trace[n]);
        var a := ReadBegins(trace, steps, n - 1);
        assert Read(trace, steps, a, n - 1);
        ReadOrder(trace, steps, a, n - 1);
      } else {
        OtherOrder(trace[n - 1], trace[n], steps[n - 1]);
      }
    }
  }
}
