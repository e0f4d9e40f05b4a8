/** Rules for the single steps of handler and reader under which packets are
    delivered in the order they arrived. */
module PacketRules {
  import opened PacketProtocol
  import opened PacketOrder

  /** Rules for single steps: a read does not start between a mark and the
      advance of the index; a packet is marked behind a running scan; the index
      does not come to rest between buffered packets it has passed by and
      others still ahead of it. */
  datatype Rule = StartsClear | StaysBehind | GoesStraight

  ghost predicate Obeys(rule: Rule, s: State, step: Step) {
    match rule
    case StartsClear => step == StartScan ==> !s.handler.Marked?
    case StaysBehind => step == Mark && s.handler.Filled? && Looking(s.reader) ==> Behind(s.reader, s.handler.index)
    case GoesStraight => step == Advance && s.handler.Marked? ==> Straight(s, s.handler.index)
  }

  predicate Behind(r: Reader, i: nat)
    requires Looking(r)
  {
    r.start < MAX_PKT && i < MAX_PKT && Place(r.start, i) < r.tries
  }

  ghost predicate Straight(s: State, at: nat) {
    && s.currentIndex < MAX_PKT && at < MAX_PKT
    && forall x: Arrival, i: nat, y: Arrival, j: nat ::
         (BufferedAt(s, x, i) && BufferedAt(s, y, j) && i < MAX_PKT && j < MAX_PKT
          && Place(s.currentIndex, i) < Place(s.currentIndex, at)) ==>
           Place(s.currentIndex, j) <= Place(s.currentIndex, at)
  }

  ghost predicate Obedient(trace: seq<State>, steps: seq<Step>, rules: set<Rule>) {
    Run(trace, steps) && forall n, rule :: 0 <= n < |steps| && rule in rules ==> Obeys(rule, trace[n], steps[n])
  }

  /** From the index onwards, buffered packets lie in the order they arrived,
      but for one marked and not yet passed by the index. */
  ghost predicate Ordered(s: State) {
    && s.currentIndex < MAX_PKT
    && forall x: Arrival, i: nat, y: Arrival, j: nat :: InFront(s, x, i) && InFront(s, y, j) && x < y ==>
         Place(s.currentIndex, i) < Place(s.currentIndex, j)
  }

  ghost predicate InFront(s: State, x: Arrival, i: nat) {
    BufferedAt(s, x, i) && i < MAX_PKT && s.handler != Marked(i)
  }

  lemma PlaceAfter(start: nat, at: nat, i: nat)
    requires start < MAX_PKT && at < MAX_PKT && i < MAX_PKT
    ensures var p, q := Place(start, i), Place(start, at);
            Place(Index(at, 1), i) == if p <= q then p + MAX_PKT - 1 - q else p - q - 1
  {
  }

  lemma StaysStraight(s: State, s': State)
    requires InvMore(s) && Ordered(s) && Next(s, s', Advance) && Straight(s, s.handler.index)
    ensures Ordered(s')
  {
    var at := s.handler.index;
    AdvanceMoves(s, s');
    hide Inv, BufferedAt, Next, Place;
    forall x: Arrival, i: nat, y: Arrival, j: nat | InFront(s', x, i) && InFront(s', y, j) && x < y
      ensures Place(s'.currentIndex, i) < Place(s'.currentIndex, j)
    {
      BufferedBelow(s, y, j);
      assert InFront(s, x, i);
      assert j != at ==> InFront(s, y, j);
      assert BufferedAt(s, x, i) && BufferedAt(s, y, j);
      PlaceAfter(s.currentIndex, at, i);
      PlaceAfter(s.currentIndex, at, j);
      PlacesApart(s.currentIndex, i, at);
    }
  }

  lemma PlacesApart(start: nat, i: nat, j: nat)
    requires start < MAX_PKT && i < MAX_PKT && j < MAX_PKT
    ensures i != j ==> Place(start, i) != Place(start, j)
  {
  }

  lemma WasStraight(s: State, s': State)
    requires InvMore(s) && Ordered(s) && Next(s, s', Advance) && Ordered(s')
    ensures Straight(s, s.handler.index)
  {
    var at := s.handler.index;
    AdvanceMoves(s, s');
    hide Inv, BufferedAt, Next, Place;
    forall x: Arrival, i: nat, y: Arrival, j: nat |
      && BufferedAt(s, x, i) && BufferedAt(s, y, j) && i < MAX_PKT && j < MAX_PKT
      && Place(s.currentIndex, i) < Place(s.currentIndex, at)
      ensures Place(s.currentIndex, j) <= Place(s.currentIndex, at)
    {
      assert BufferedAt(s', x, i) && BufferedAt(s', y, j);
      assert InFront(s', x, i) && InFront(s', y, j) && InFront(s, x, i);
      assert j != at ==> InFront(s, y, j);
      PlaceAfter(s.currentIndex, at, i);
      PlaceAfter(s.currentIndex, at, j);
      if x == y {
        SamePacketSameSlot(s, x, i, j) by { SlotsAreOk(s); }
      }
    }
  }

  lemma SlotsAreOk(s: State)
    requires Inv(s)
    ensures SlotsOk(s)
  {
  }

  /** Advancing the index keeps the slots in order exactly if it goes straight. */
  lemma AdvanceOrder(s: State, s': State)
    requires InvMore(s) && Ordered(s) && Next(s, s', Advance)
    ensures s.handler.Marked? && (Ordered(s') <==> Straight(s, s.handler.index))
  {
    InvOf(s);
    AdvanceMoves(s, s');
    hide *;
    if Ordered(s') {
      WasStraight(s, s');
    } else if Straight(s, s.handler.index) {
      StaysStraight(s, s');
    }
  }

  lemma BufferedBelow(s: State, y: Arrival, j: nat)
    requires Inv(s) && BufferedAt(s, y, j)
    ensures y < s.arrivals
  {
    SeenBy(s, y, j);
  }

  lemma AdvanceMoves(s: State, s': State)
    requires Inv(s) && Next(s, s', Advance)
    ensures s.handler.Marked? && s.handler.index < MAX_PKT
    ensures s' == s.(handler := Waiting, currentIndex := Index(s.handler.index, 1))
    ensures forall x: Arrival, i: nat :: BufferedAt(s', x, i) <==> BufferedAt(s, x, i)
  {
    hide SlotsOk, ReaderOk, DeliveredOk;
    forall x: Arrival, i: nat
      ensures BufferedAt(s', x, i) <==> BufferedAt(s, x, i)
    {
      StepBuffers(s, s', Advance, x, i);
    }
  }

  /** Every other step keeps the slots in order. */
  lemma OtherSlotOrder(s: State, s': State, step: Step)
    requires InvMore(s) && Ordered(s) && Next(s, s', step) && step != Advance
    ensures Ordered(s')
  {
    assert s'.currentIndex == s.currentIndex;
    forall x: Arrival, i: nat | InFront(s', x, i)
      ensures InFront(s, x, i)
    {
      BufferedKeeps(s, s', step, x, i);
    }
    hide InFront;
  }

  lemma {:induction false} SlotsInOrder(trace: seq<State>, steps: seq<Step>, n: nat)
    requires Obedient(trace, steps, {GoesStraight}) && n < |trace|
    ensures Ordered(trace[n])
  {
    hide Ordered, Next, InvMore, Straight;
    if n == 0 {
      OrderedAtFirst(trace[0]);
    } else {
      SlotsInOrder(trace, steps, n - 1);
      RunInvMore(trace, steps, n - 1);
      StepOf(trace, steps, n - 1);
      if steps[n - 1] == Advance {
        InvOf(trace[n - 1]);
        AdvanceMoves(trace[n - 1], trace[n]);
        assert Obeys(GoesStraight, trace[n - 1], steps[n - 1]);
        AdvanceOrder(trace[n - 1], trace[n]);
      } else {
        OtherSlotOrder(trace[n - 1], trace[n], steps[n - 1]);
      }
    }
  }

  lemma OrderedAtFirst(s: State)
    requires Init(s)
    ensures Ordered(s)
  {
  }

  /** With all rules obeyed no read is crossed. */
  lemma ObedientIsUncrossed(trace: seq<State>, steps: seq<Step>, a: nat, b: nat)
    requires Obedient(trace, steps, {StartsClear, StaysBehind, GoesStraight}) && Read(trace, steps, a, b)
    ensures !Crossed(trace, steps, a, b)
  {
    forall k: nat, x: Arrival, i: nat, y: Arrival, j: nat
      ensures !CrossedAt(trace, steps, a, b, k, x, i, y, j)
    {
      if CrossedAt(trace, steps, a, b, k, x, i, y, j) {
        if k == a {
          ClearStart(trace, steps, a, x, i, y, j);
        } else {
          MarkedIsMissed(trace, steps, a, b, k, x, i);
        }
      }
    }
  }

  lemma ClearStart(trace: seq<State>, steps: seq<Step>, a: nat, x: Arrival, i: nat, y: Arrival, j: nat)
    requires Obedient(trace, steps, {StartsClear, StaysBehind, GoesStraight})
    requires a < |steps| && steps[a] == StartScan && BufferedAt(trace[a], x, i) && trace[a].currentIndex < MAX_PKT
    ensures !Jumps(trace[a], trace[a].currentIndex, x, i, y, j)
  {
    hide Next, Init, Inv, BufferedAt, Straight, Place;
    SlotsInOrder(trace, steps, a);
    RunInvMore(trace, steps, a);
    StepOf(trace, steps, a);
    FirstOfRead(trace[a], trace[a + 1]);
    assert Obeys(StartsClear, trace[a], steps[a]);
    if y < x && BufferedAt(trace[a], y, j) && i < MAX_PKT && j < MAX_PKT {
      assert InFront(trace[a], x, i) && InFront(trace[a], y, j);
    }
  }

  /** A packet marked behind the scan is not taken by it. */
  lemma MarkedIsMissed(trace: seq<State>, steps: seq<Step>, a: nat, b: nat, k: nat, x: Arrival, i: nat)
    requires Obedient(trace, steps, {StartsClear, StaysBehind, GoesStraight}) && ReadFrom(trace, steps, a, b)
    requires a < k < b && steps[k] == Mark && trace[k].handler == Filled(x, i)
    ensures !Took(trace[b].reader, x)
  {
    assert Obeys(StaysBehind, trace[k], steps[k]);
    hide Next, Init, InvMore, BufferedAt, Straight, Place;
    RunInvMore(trace, steps, k);
    assert ReadFrom(trace, steps, a, k);
    WithinRead(trace, steps, a, k);
    WithinRead(trace, steps, a, b);
    StepOf(trace, steps, k);
    NoCopyOfMarked(trace[k], i);
    MissedTillThen(trace, steps, a, k, b, Place(trace[a].currentIndex, i));
    ComeAndStay(trace, steps, a, b, k, x, i);
    forall n | 0 <= n < |trace[b].reader.copies|
      ensures trace[b].reader.copies[n].cell != Data(x)
    {
      CopiedIsThere(trace[b], x, i, trace[b].reader.copies[n]);
    }
  }

  lemma NoCopyOfMarked(s: State, i: nat)
    requires InvMore(s) && Reading(s.reader) && s.handler.Filled? && s.handler.index == i
    requires Looking(s.reader) ==> Behind(s.reader, i)
    ensures i < MAX_PKT && Missed(s.reader, Place(s.reader.start, i))
  {
    hide SlotsOk, DeliveredOk;
    forall n | 0 <= n < |s.reader.copies|
      ensures s.reader.copies[n].place != Place(s.reader.start, i)
    {
      assert HeldOk(s, Held(s.reader)[n]);
    }
  }

  /** Runs that obey the rules deliver in order. */
  lemma ObedientInOrder(trace: seq<State>, steps: seq<Step>, n: nat)
    requires Obedient(trace, steps, {StartsClear, StaysBehind, GoesStraight}) && n < |trace|
    ensures InOrder(trace[n])
  {
    hide InOrder, Crossed;
    forall a: nat, b: nat | Read(trace, steps, a, b)
      ensures !Crossed(trace, steps, a, b)
    {
      ObedientIsUncrossed(trace, steps, a, b);
    }
    RunOrder(trace, steps);
  }

  /** The index goes straight if no packet had to search for its slot. */
  lemma UnsearchedIsStraight(trace: seq<State>, steps: seq<Step>)
    requires Run(trace, steps)
    requires forall n ::
               0 <= n < |steps| && steps[n] == Claim ==> trace[n].handler.Searching? && trace[n].handler.tries == 0
    ensures Obedient(trace, steps, {GoesStraight})
  {
    forall n | 0 <= n < |steps|
      ensures Obeys(GoesStraight, trace[n], steps[n])
    {
      hide Next, InvMore, Init;
      AtIndex(trace, steps, n);
      RunInvMore(trace, steps, n);
      InvOf(trace[n]);
    }
  }

  ghost predicate Unsearched(s: State) {
    && (s.handler.Searching? && s.handler.tries == 0 ==> s.handler.index == s.currentIndex)
    && (s.handler.Claimed? || s.handler.Filled? || s.handler.Marked? ==> s.handler.index == s.currentIndex)
  }

  lemma {:induction false} AtIndex(trace: seq<State>, steps: seq<Step>, n: nat)
    requires Run(trace, steps) && n < |trace|
    requires forall n ::
               0 <= n < |steps| && steps[n] == Claim ==> trace[n].handler.Searching? && trace[n].handler.tries == 0
    ensures Unsearched(trace[n])
  {
    if n > 0 {
      AtIndex(trace, steps, n - 1);
      assert Next(trace[n - 1], trace[n], steps[n - 1]);
      assert steps[n - 1] == Claim ==> trace[n - 1].handler.tries == 0;
    }
  }
}
