/** Runs in which a packet overtakes an older one: none of the rules can be spared. */
module PacketOvertaking {
  import opened PacketProtocol
  import opened PacketOrder
  import opened PacketRules

  /** Some run from the start that obeys the rules ends in this state. */
  ghost predicate Reaches(rules: set<Rule>, s: State) {
    exists trace: seq<State>, steps: seq<Step> :: EndsIn(trace, steps, rules, s)
  }

  ghost predicate EndsIn(trace: seq<State>, steps: seq<Step>, rules: set<Rule>, s: State) {
    Obedient(trace, steps, rules) && trace[|steps|] == s
  }

  lemma Go(rules: set<Rule>, s: State, step: Step, s': State)
    requires Reaches(rules, s) && Next(s, s', step) && forall rule :: rule in rules ==> Obeys(rule, s, step)
    ensures Reaches(rules, s')
  {
    var trace: seq<State>, steps: seq<Step> :| EndsIn(trace, steps, rules, s);
    hide Next, Obeys, Init;
    assert EndsIn(trace + [s'], steps + [step], rules, s');
  }

  /** A step no rule speaks of. */
  lemma GoFreely(rules: set<Rule>, s: State, step: Step, s': State)
    requires Reaches(rules, s) && Next(s, s', step) && step != StartScan && step != Mark && step != Advance
    ensures Reaches(rules, s')
  {
    Go(rules, s, step, s');
  }

  lemma AtFirst(rules: set<Rule>) returns (s: State)
    ensures Init(s) && Reaches(rules, s)
  {
    s := State(seq(MAX_PKT, _ => false), seq(MAX_PKT, _ => Zeroed), 0, 0, Waiting, Away, {}, {}, []);
    assert EndsIn([s], [], rules, s);
  }

  ghost predicate Formed(s: State) {
    |s.occupied| == |s.cells| == MAX_PKT && s.currentIndex < MAX_PKT
  }

  /** The free slot found is taken while no scan runs. */
  lemma PutDown(rules: set<Rule>, s: State) returns (s': State)
    requires Reaches(rules, s) && Formed(s) && s.reader == Away
    requires s.handler.Searching? && s.handler.tries < MAX_TRY && s.handler.index < MAX_PKT
    requires !s.occupied[s.handler.index]
    requires GoesStraight in rules ==> s.handler.index == s.currentIndex
    ensures Reaches(rules, s') && Formed(s')
    ensures var i := s.handler.index;
            && s'.occupied == s.occupied[i := true] && s'.cells == s.cells[i := Data(s.handler.id)]
            && s'.currentIndex == Index(i, 1) && s'.handler == Waiting
            && s'.reader == Away && s'.arrivals == s.arrivals && s'.delivered == s.delivered
  {
    var i, id := s.handler.index, s.handler.id;
    hide Reaches;
    var s1 := s.(handler := Claimed(id, i));
    GoFreely(rules, s, Claim, s1);
    var s2 := s1.(handler := Filled(id, i), cells := s1.cells[i := Data(id)]);
    GoFreely(rules, s1, Fill, s2);
    var s3 := s2.(handler := Marked(i), occupied := s2.occupied[i := true], accepted := s2.accepted + {id});
    Go(rules, s2, Mark, s3);
    s' := s3.(handler := Waiting, currentIndex := Index(i, 1));
    if GoesStraight in rules {
      assert Straight(s3, i);
    }
    Go(rules, s3, Advance, s');
  }

  lemma Arrives(rules: set<Rule>, s: State) returns (s': State)
    requires Reaches(rules, s) && Formed(s) && s.handler == Waiting
    ensures Reaches(rules, s') && Formed(s')
    ensures s' == s.(handler := Searching(s.arrivals, s.currentIndex, 0), arrivals := s.arrivals + 1)
  {
    s' := s.(handler := Searching(s.arrivals, s.currentIndex, 0), arrivals := s.arrivals + 1);
    GoFreely(rules, s, Arrive, s');
  }

  /** One packet after the other is put down into an empty buffer. */
  lemma {:induction false} Fills(rules: set<Rule>, n: nat) returns (s: State)
    requires n <= MAX_PKT
    ensures Reaches(rules, s) && Formed(s) && s.reader == Away && s.handler == Waiting
    ensures s.arrivals == n && s.currentIndex == n % MAX_PKT && s.delivered == []
    ensures forall i :: 0 <= i < MAX_PKT ==> (s.occupied[i] <==> i < n) && (i < n ==> s.cells[i] == Data(i))
  {
    hide Reaches;
    if n == 0 {
      s := AtFirst(rules);
    } else {
      var t := Fills(rules, n - 1);
      var u := Arrives(rules, t);
      s := PutDown(rules, u);
    }
  }

  /** The search passes over n marked slots. */
  lemma {:induction false} Searches(rules: set<Rule>, s: State, n: nat) returns (s': State)
    requires Reaches(rules, s) && Formed(s) && s.handler.Searching? && s.handler.index < MAX_PKT
    requires s.handler.tries + n <= MAX_TRY
    requires forall k :: 0 <= k < n ==> s.occupied[Index(s.handler.index, k)]
    ensures Reaches(rules, s')
    ensures s' == s.(handler := Searching(s.handler.id, Index(s.handler.index, n), s.handler.tries + n))
  {
    hide Reaches;
    s' := s;
    if n > 0 {
      var t := Searches(rules, s, n - 1);
      s' := t.(handler := Searching(t.handler.id, Index(t.handler.index, 1), t.handler.tries + 1));
      GoFreely(rules, t, NextSlot, s');
    }
  }

  /** The scan passes over n free slots. */
  lemma {:induction false} Skips(rules: set<Rule>, s: State, n: nat) returns (s': State)
    requires Reaches(rules, s) && Formed(s) && s.reader.Scanning? && s.reader.tries + n <= MAX_PKT
    requires |s.reader.copies| < PKTS_PER_BUFFER
    requires forall k :: s.reader.tries <= k < s.reader.tries + n ==> !s.occupied[Index(s.reader.start, k)]
    ensures Reaches(rules, s')
    ensures s' == s.(reader := Scanning(s.reader.start, s.reader.tries + n, s.reader.copies))
  {
    hide Reaches, Index;
    s' := s;
    if n > 0 {
      var t := Skips(rules, s, n - 1);
      s' := t.(reader := Scanning(t.reader.start, t.reader.tries + 1, t.reader.copies));
      GoFreely(rules, t, Skip, s');
    }
  }

  /** The scan copies n marked slots. */
  lemma {:induction false} Takes(rules: set<Rule>, s: State, n: nat) returns (s': State)
    requires Reaches(rules, s) && Formed(s) && s.reader.Scanning? && s.reader.tries + n <= MAX_PKT
    requires |s.reader.copies| + n <= PKTS_PER_BUFFER
    requires forall k :: s.reader.tries <= k < s.reader.tries + n ==> s.occupied[Index(s.reader.start, k)]
    ensures Reaches(rules, s') && s'.reader.Scanning?
    ensures s' == s.(reader := Scanning(s.reader.start, s.reader.tries + n, s'.reader.copies))
    ensures s'.reader.copies ==
              s.reader.copies + seq(n, k requires 0 <= k < n => CopyAt(s, s.reader.start, s.reader.tries + k))
  {
    hide Reaches, Index;
    s' := s;
    if n > 0 {
      var t := Takes(rules, s, n - 1);
      var u := t.(reader := Taking(t.reader.start, t.reader.tries, t.reader.copies));
      GoFreely(rules, t, Spot, u);
      s' := u.(reader := Scanning(t.reader.start, t.reader.tries + 1,
                                  t.reader.copies + [CopyAt(s, t.reader.start, t.reader.tries)]));
      GoFreely(rules, u, Take, s');
    }
  }

  function CopyAt(s: State, start: nat, place: nat): Copy
    requires |s.cells| == MAX_PKT
  {
    Copy(place, s.cells[Index(start, place)])
  }

  /** The scan is over and what it copied reaches user space. */
  lemma Delivers(rules: set<Rule>, s: State) returns (s': State)
    requires Reaches(rules, s) && Formed(s) && s.reader.Scanning?
    requires |s.reader.copies| >= PKTS_PER_BUFFER || s.reader.tries >= MAX_PKT
    ensures Reaches(rules, s')
    ensures s' ==
              s.(reader := Clearing(s.reader.start, s.reader.copies, 0),
                 delivered := s.delivered + Cells(s.reader.copies))
  {
    hide Reaches;
    var t := s.(reader := Copying(s.reader.start, s.reader.copies));
    GoFreely(rules, s, EndScan, t);
    s' := t.(reader := Clearing(s.reader.start, s.reader.copies, 0), delivered := s.delivered + Cells(s.reader.copies));
    GoFreely(rules, t, CopyOut, s');
  }

  /** The first n slots are cleared after a scan from slot 0. */
  lemma {:induction false} Clears(rules: set<Rule>, s: State, n: nat) returns (s': State)
    requires Reaches(rules, s) && Formed(s) && s.reader.Clearing? && s.reader.start == 0 && s.reader.done == 0
    requires n <= |s.reader.copies| <= MAX_PKT
    requires forall k :: 0 <= k < |s.reader.copies| ==> s.reader.copies[k].place == k
    ensures Reaches(rules, s') && Formed(s') && s'.reader == Clearing(0, s.reader.copies, n)
    ensures s' == s.(reader := s'.reader, occupied := s'.occupied, cells := s'.cells)
    ensures forall i :: n <= i < MAX_PKT ==> s'.occupied[i] == s.occupied[i] && s'.cells[i] == s.cells[i]
    ensures forall i :: 0 <= i < n ==> !s'.occupied[i]
  {
    hide Reaches;
    s' := s;
    if n > 0 {
      var t := Clears(rules, s, n - 1);
      var copies, i := t.reader.copies, n - 1;
      assert Index(0, copies[i].place) == i;
      var u := t.(reader := Zeroing(0, copies, i), cells := t.cells[i := Zeroed]);
      GoFreely(rules, t, Zero, u);
      s' := u.(reader := Clearing(0, copies, n), occupied := u.occupied[i := false]);
      GoFreely(rules, u, Release, s');
    }
  }

  /** A scan from slot 1 takes packet 1 there, goes round, and takes packet 0 at slot 0 after it. */
  lemma TakesNewerFirst(rules: set<Rule>, s: State) returns (s': State)
    requires Reaches(rules, s) && Formed(s) && s.reader == Scanning(1, 0, []) && s.delivered == []
    requires s.cells[0] == Data(0) && s.cells[1] == Data(1)
    requires forall i :: 0 <= i < MAX_PKT ==> (s.occupied[i] <==> i < 2)
    ensures Reaches(rules, s') && s'.delivered == [Data(1), Data(0)]
  {
    hide Reaches;
    var t := Takes(rules, s, 1);
    assert t.reader.copies == [CopyAt(s, 1, 0)];
    var u := Skips(rules, t, MAX_PKT - 2);
    var v := Takes(rules, u, 1);
    assert v.reader.copies == u.reader.copies + [CopyAt(u, 1, 199)];
    assert v.reader.copies == [CopyAt(s, 1, 0), CopyAt(s, 1, 199)];
    s' := Delivers(rules, v);
    assert s'.delivered == [CopyAt(s, 1, 0).cell, CopyAt(s, 1, 199).cell];
  }

  /** A packet is marked just ahead of a scan that has begun at its slot. */
  lemma MarkedAheadOvertakes() returns (s: State)
    ensures Reaches({StartsClear, GoesStraight}, s) && s.delivered == [Data(1), Data(0)]
  {
    var rules := {StartsClear, GoesStraight};
    hide Reaches;
    var s0 := Fills(rules, 1);
    var s1 := Arrives(rules, s0);
    var s2 := s1.(reader := Scanning(1, 0, []));
    Go(rules, s1, StartScan, s2);
    var s3 := s2.(handler := Claimed(1, 1));
    GoFreely(rules, s2, Claim, s3);
    var s4 := s3.(handler := Filled(1, 1), cells := s3.cells[1 := Data(1)]);
    GoFreely(rules, s3, Fill, s4);
    var s5 := s4.(handler := Marked(1), occupied := s4.occupied[1 := true], accepted := s4.accepted + {1});
    Go(rules, s4, Mark, s5);
    s := TakesNewerFirst(rules, s5);
  }

  /** A scan begins at the slot of a packet marked just before. */
  lemma StartedLateOvertakes() returns (s: State)
    ensures Reaches({StaysBehind, GoesStraight}, s) && s.delivered == [Data(1), Data(0)]
  {
    var rules := {StaysBehind, GoesStraight};
    hide Reaches;
    var s0 := Fills(rules, 1);
    var s1 := Arrives(rules, s0);
    var s2 := s1.(handler := Claimed(1, 1));
    GoFreely(rules, s1, Claim, s2);
    var s3 := s2.(handler := Filled(1, 1), cells := s2.cells[1 := Data(1)]);
    GoFreely(rules, s2, Fill, s3);
    var s4 := s3.(handler := Marked(1), occupied := s3.occupied[1 := true], accepted := s3.accepted + {1});
    Go(rules, s3, Mark, s4);
    var s5 := s4.(reader := Scanning(1, 0, []));
    Go(rules, s4, StartScan, s5);
    s := TakesNewerFirst(rules, s5);
  }

  /** The buffer is full, and packet 200 searches while a read gives back the
      first 32 slots: it gets the last of them. */
  lemma FindsFreedSlot(rules: set<Rule>) returns (s: State)
    requires GoesStraight !in rules
    ensures Reaches(rules, s) && Formed(s) && s.handler == Waiting && s.reader == Away
    ensures s.currentIndex == 32 && s.arrivals == 201
    ensures forall i :: 0 <= i < MAX_PKT ==> (s.occupied[i] <==> 31 <= i)
    ensures s.cells[31] == Data(200) && s.cells[32] == Data(32)
  {
    hide Reaches;
    var s0 := Fills(rules, MAX_PKT);
    var s1 := Arrives(rules, s0);
    var s2 := s1.(reader := Scanning(0, 0, []));
    Go(rules, s1, StartScan, s2);
    var s3 := Takes(rules, s2, PKTS_PER_BUFFER);
    var s4 := Delivers(rules, s3);
    assert forall k :: 0 <= k < PKTS_PER_BUFFER ==> s4.reader.copies[k] == CopyAt(s2, 0, k);
    var s5 := Searches(rules, s4, 31);
    var s6 := Clears(rules, s5, PKTS_PER_BUFFER);
    var s7 := s6.(reader := Away);
    GoFreely(rules, s6, Leave, s7);
    s := PutDown(rules, s7);
  }

  /** The next packet passes over all that is left and gets slot 0, so that the
      next scan begins at slot 1 and takes packet 200 before packet 32. */
  lemma SearchOvertakes() returns (s: State)
    ensures Reaches({StartsClear, StaysBehind}, s) && !InOrder(s)
  {
    var rules := {StartsClear, StaysBehind};
    hide Reaches;
    var s0 := FindsFreedSlot(rules);
    var s1 := Arrives(rules, s0);
    var s2 := Searches(rules, s1, 168);
    var s3 := PutDown(rules, s2);
    var s4 := s3.(reader := Scanning(1, 0, []));
    Go(rules, s3, StartScan, s4);
    var s5 := Skips(rules, s4, 30);
    var s6 := Takes(rules, s5, PKTS_PER_BUFFER);
    s := Delivers(rules, s6);
    var n := |s3.delivered|;
    assert s.delivered[n] == s6.reader.copies[0].cell == CopyAt(s5, 1, 30).cell;
    assert s.delivered[n + 1] == s6.reader.copies[1].cell == CopyAt(s5, 1, 31).cell;
    assert s.delivered[n] == Data(200) && s.delivered[n + 1] == Data(32);
    assert !Earlier(s.delivered[n], s.delivered[n + 1]);
  }

  /** Each rule is needed: runs that obey the other two need not deliver in order. */
  lemma EachRuleIsNeeded(rule: Rule)
    ensures exists trace: seq<State>, steps: seq<Step> ::
              Obedient(trace, steps, {StartsClear, StaysBehind, GoesStraight} - {rule}) && !InOrder(trace[|steps|])
  {
    var rules := {StartsClear, StaysBehind, GoesStraight} - {rule};
    var s: State;
    match rule {
      case StartsClear =>
        assert rules == {StaysBehind, GoesStraight};
        s := StartedLateOvertakes();
      case StaysBehind =>
        assert rules == {StartsClear, GoesStraight};
        s := MarkedAheadOvertakes();
      case GoesStraight =>
        assert rules == {StartsClear, StaysBehind};
        s := SearchOvertakes();
    }
    assert s.delivered == [Data(1), Data(0)] ==> !Earlier(s.delivered[0], s.delivered[1]);
    var trace: seq<State>, steps: seq<Step> :| EndsIn(trace, steps, rules, s);
    assert !InOrder(trace[|steps|]);
  }
}
