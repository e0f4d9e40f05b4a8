/** Types with which parsing and matching go astray: a negative index, and names of
    which the first field does not fit (eBPF_app/libbpf/src/libbpf.c). */
module CoreMisleads {
  import BtfStrings
  import opened BtfTypes
  import opened CoreBtf
  import opened CoreMatch
  import opened Options
  import opened Results
  import opened Words

  /** struct 4 { struct 3 { void *x; }; int x; } and struct 5 { int x; }. */
  function Twice(): Btf {
    Btf([VOID,
         BtfType(0, Info(Int, false, 0), 4, IntData(32)),
         BtfType(0, Info(Ptr, false, 0), 0, Nothing),
         BtfType(0, Info(Struct, false, 1), 8, Members([Member(1, 2, 0)])),
         BtfType(0, Info(Struct, false, 2), 16, Members([Member(0, 3, 0), Member(1, 1, 64)])),
         BtfType(0, Info(Struct, false, 1), 4, Members([Member(1, 1, 0)]))],
        [BtfStrings.NUL, 'x', BtfStrings.NUL])
  }

  lemma TwiceIsClosed()
    ensures Closed(Twice().types)
  {
    var g := Twice().types;
    assert Refs(g[2]) == [0] && Refs(g[3]) == [2] && Refs(g[4]) == [3, 1] && Refs(g[5]) == [1];
    assert forall x :: 0 <= x < |g| ==> WellFormed(g[x]);
  }

  lemma TwiceIsValid()
    ensures Valid(Twice())
  {
    TwiceIsClosed();
    hide Closed, WellFormed;
    var g := Twice().types;
    var rank := [0, 0, 0, 0, 0, 0];
    forall x | 0 <= x < |g|
      ensures NextBelow(g, rank, x)
    {
    }
    assert Ranked(g, rank);
  }

  lemma TwiceNames()
    ensures Valid(Twice()) && Name(Twice(), 0) == "" && Name(Twice(), 1) == "x"
  {
    TwiceIsValid();
    assert BtfStrings.StrLen(Twice().strs, 2) == 0;
    assert BtfStrings.StrLen(Twice().strs, 1) == 1;
    assert Twice().strs[1..2] == "x";
  }

  lemma TwiceNamesOk()
    ensures Valid(Twice()) && NamesOk(Twice())
  {
    TwiceNames();
    hide Name;
  }

  lemma TwiceField()
    ensures Valid(Twice()) && NamedIn(Twice(), Accessor(5, 0, Some("x")))
    ensures var s := Spec([Accessor(4, 0, None)], [0], 0);
            MatchBelow(Twice(), Accessor(5, 0, Some("x")), Twice(), 4, s) ==
              Outcome(Found, Spec([Accessor(4, 0, None), Accessor(4, 1, Some("x"))], [0, 0, 1], 64), 1)
  {
    TwiceNames();
    var b, acc, s := Twice(), Accessor(5, 0, Some("x")), Spec([Accessor(4, 0, None)], [0], 0);
    assert NamedIn(b, acc);
    var inner := Push(s, 0, 0);
    assert LocalField(b, acc) == 1;
    assert !Compatible(b, 1, b, 2) && Compatible(b, 1, b, 1);
    assert MatchFrom(b, acc, b, 3, 0, inner) == Outcome(NotFound, Push(inner, 0, 0), 2);
    assert MatchBelow(b, acc, b, 3, inner) == Outcome(NotFound, Push(inner, 0, 0), 2);
    var left := Pop(Push(inner, 0, 0), 0);
    assert left == Spec([Accessor(4, 0, None)], [0, 0], 0);
    assert MatchFrom(b, acc, b, 4, 1, left) ==
           Outcome(Found, Spec([Accessor(4, 0, None), Accessor(4, 1, Some("x"))], [0, 0, 1], 64), 1);
    assert MatchBelow(b, acc, b, 4, s) == MatchFrom(b, acc, b, 4, 1, left);
  }

  lemma TwiceWalks()
    ensures Valid(Twice()) && ResolvedSize(Twice().types, 4) == Ok(16)
    ensures Walk(Twice(), 4, [0, 1]) == Invalid && Walk(Twice(), 4, [1]).Ok?
  {
    TwiceNames();
    var b := Twice();
    assert Step(b, 4, 0) == Ok(Walked([], 0, 3));
    assert Step(b, 3, 1) == Invalid;
    assert [0, 1][1..] == [1] && [1][1..] == [];
    assert Step(b, 4, 1).Ok?;
  }

  /** Member -1 of a struct goes astray. */
  lemma NegativeIndexStrays()
    ensures Valid(Twice()) && Strays(Twice(), 4, [-1])
  {
    TwiceIsValid();
    assert Skip(Twice().types, 4) == 4;
  }

  /** The search meets the pointer first and rejects it, which leaves its step
      behind: the match found after that has a raw path that is not one. */
  lemma SecondNameMisleads()
    ensures Valid(Twice())
    ensures var l := [Accessor(5, 0, None), Accessor(5, 0, Some("x"))];
            && LocalSpec(Twice(), l)
            && SpecMatchFrom(Twice(), l, 0, Twice(), 4, Spec([], [], 0)) ==
                 Outcome(Found, Spec([Accessor(4, 0, None), Accessor(4, 1, Some("x"))], [0, 0, 1], 64), 1)
            && Parsed(Twice(), 4, [0, 0, 1]) == Invalid && Parsed(Twice(), 4, [0, 1]).Ok?
            && !FirstsFit(Twice(), l, 1, Twice(), 4, MAX_LEN - 1)
  {
    TwiceField();
    TwiceWalks();
    hide MatchBelow, Walk, ResolvedSize;
    var b := Twice();
    var l := [Accessor(5, 0, None), Accessor(5, 0, Some("x"))];
    var s := Spec([Accessor(4, 0, None)], [0], 0);
    assert Skip(b.types, 4) == 4;
    assert Spec([] + [Accessor(4, 0, None)], [] + [0], Plus(0, Span(0, 16))) == s;
    assert SpecMatchFrom(b, l, 0, b, 4, Spec([], [], 0)) == SpecMatchFrom(b, l, 1, b, 4, s);
    assert [0, 0, 1][1..] == [0, 1] && [0, 1][1..] == [1];
    if FirstsFit(b, l, 1, b, 4, MAX_LEN - 1) {
      TwiceNamesOk();
      MatchIsParsed(b, l, b, 4);
      assert false;
    }
  }

  /** union 4 { union 3 { void *x; struct 5; }; struct 5; } and struct 5 { int x; }. */
  function Nested(): Btf {
    Btf([VOID,
         BtfType(0, Info(Int, false, 0), 4, IntData(32)),
         BtfType(0, Info(Ptr, false, 0), 0, Nothing),
         BtfType(0, Info(Union, false, 2), 8, Members([Member(1, 2, 0), Member(0, 5, 0)])),
         BtfType(0, Info(Union, false, 2), 8, Members([Member(0, 3, 0), Member(0, 5, 0)])),
         BtfType(0, Info(Struct, false, 1), 4, Members([Member(1, 1, 0)]))],
        [BtfStrings.NUL, 'x', BtfStrings.NUL])
  }

  lemma NestedIsClosed()
    ensures Closed(Nested().types)
  {
    var g := Nested().types;
    assert Refs(g[2]) == [0] && Refs(g[3]) == [2, 5] && Refs(g[4]) == [3, 5] && Refs(g[5]) == [1];
    assert forall x :: 0 <= x < |g| ==> WellFormed(g[x]);
  }

  lemma NestedNames()
    ensures Valid(Nested()) && Name(Nested(), 0) == "" && Name(Nested(), 1) == "x"
  {
    NestedIsClosed();
    var g := Nested().types;
    assert Ranked(g, [0, 0, 0, 0, 0, 0]) by {
      hide Closed, WellFormed;
      forall x | 0 <= x < |g|
        ensures NextBelow(g, [0, 0, 0, 0, 0, 0], x)
      {
      }
    }
    assert BtfStrings.StrLen(Nested().strs, 2) == 0;
    assert BtfStrings.StrLen(Nested().strs, 1) == 1;
    assert Nested().strs[1..2] == "x";
  }

  /** The pointer is met first, and its step is left over. */
  lemma NestedLeftOver()
    ensures Valid(Nested()) && NamedIn(Nested(), Accessor(5, 0, Some("x")))
    ensures LocalField(Nested(), Accessor(5, 0, Some("x"))) == 1 && Compatible(Nested(), 1, Nested(), 1)
    ensures MatchBelow(Nested(), Accessor(5, 0, Some("x")), Nested(), 3, Spec([Accessor(4, 0, None)], [0, 0], 0)) ==
              Outcome(NotFound, Spec([Accessor(4, 0, None)], [0, 0, 0], 0), 2)
  {
    NestedNames();
    var b, acc, inner := Nested(), Accessor(5, 0, Some("x")), Spec([Accessor(4, 0, None)], [0, 0], 0);
    assert NamedIn(b, acc) && LocalField(b, acc) == 1;
    assert !Compatible(b, 1, b, 2) && Compatible(b, 1, b, 1);
    assert MatchFrom(b, acc, b, 3, 0, inner) == Outcome(NotFound, Push(inner, 0, 0), 2);
  }

  lemma NestedField()
    ensures Valid(Nested()) && NamedIn(Nested(), Accessor(5, 0, Some("x")))
    ensures var s := Spec([Accessor(4, 0, None)], [0], 0);
            MatchBelow(Nested(), Accessor(5, 0, Some("x")), Nested(), 4, s) ==
              Outcome(Found, Spec([Accessor(4, 0, None), Accessor(5, 0, Some("x"))], [0, 0, 1, 0], 0), 1)
  {
    NestedNames();
    NestedLeftOver();
    hide Compatible;
    var b, acc, s := Nested(), Accessor(5, 0, Some("x")), Spec([Accessor(4, 0, None)], [0], 0);
    var left := Spec([Accessor(4, 0, None)], [0, 0], 0);
    assert Push(s, 0, 0) == left && Pop(Push(left, 0, 0), 0) == left;
    var found := Outcome(Found, Spec([Accessor(4, 0, None), Accessor(5, 0, Some("x"))], [0, 0, 1, 0], 0), 1);
    assert MatchFrom(b, acc, b, 5, 0, Push(left, 1, 0)) == found;
    assert MatchFrom(b, acc, b, 4, 1, left) == found;
  }

  lemma NestedFirst()
    ensures Valid(Nested()) && NamedIn(Nested(), Accessor(5, 0, Some("x")))
    ensures !FirstFits(Nested(), Accessor(5, 0, Some("x")), Nested(), 4, MAX_LEN - 1)
  {
    NestedNames();
    var b, acc := Nested(), Accessor(5, 0, Some("x"));
    assert NamedIn(b, acc) && LocalField(b, acc) == 1;
    assert !Compatible(b, 1, b, 2);
    assert FindBelow(b, 3, "x", MAX_LEN - 2) == At(Hit([0], 0, 3, 2));
    assert FindBelow(b, 4, "x", MAX_LEN - 1) == At(Hit([0] + [0], 0, 3, 2));
  }

  lemma NestedWalks()
    ensures Valid(Nested()) && ResolvedSize(Nested().types, 4) == Ok(8)
    ensures Walk(Nested(), 4, [0, 1, 0]) == Ok(Walked([Accessor(5, 0, Some("x"))], 0, 1))
  {
    NestedNames();
    var b := Nested();
    assert Step(b, 4, 0) == Ok(Walked([], 0, 3));
    assert Step(b, 3, 1) == Ok(Walked([], 0, 5));
    assert Step(b, 5, 0) == Ok(Walked([Accessor(5, 0, Some("x"))], 0, 1));
    assert [0, 1, 0][1..] == [1, 0] && [1, 0][1..] == [0] && [0][1..] == [];
    var accs := [Accessor(5, 0, Some("x"))];
    assert accs + [] == accs && [] + accs == accs;
    assert Walk(b, 1, []) == Ok(Walked([], 0, 1));
    assert Walk(b, 5, [0]) == Ok(Walked(accs, 0, 1));
    assert Walk(b, 3, [1, 0]) == Ok(Walked(accs, 0, 1));
  }

  /** Where the first field of a name does not fit, its steps left over may by
      chance lead to the field found after it. */
  lemma LeftOverMayLead()
    ensures Valid(Nested())
    ensures var l := [Accessor(5, 0, None), Accessor(5, 0, Some("x"))];
            var r := Spec([Accessor(4, 0, None), Accessor(5, 0, Some("x"))], [0, 0, 1, 0], 0);
            && LocalSpec(Nested(), l) && !FirstsFit(Nested(), l, 1, Nested(), 4, MAX_LEN - 1)
            && SpecMatchFrom(Nested(), l, 0, Nested(), 4, Spec([], [], 0)) == Outcome(Found, r, 1)
            && Parsed(Nested(), 4, r.raw) == Ok(Walked(r.accs, r.bitOffset, 1)) && SameAccess(l, r.accs)
  {
    NestedField();
    NestedFirst();
    NestedWalks();
    hide MatchBelow, Walk, ResolvedSize, FirstFits;
    var b := Nested();
    var l := [Accessor(5, 0, None), Accessor(5, 0, Some("x"))];
    var s := Spec([Accessor(4, 0, None)], [0], 0);
    assert Skip(b.types, 4) == 4;
    assert Spec([] + [Accessor(4, 0, None)], [] + [0], Plus(0, Span(0, 8))) == s;
    assert SpecMatchFrom(b, l, 0, b, 4, Spec([], [], 0)) == SpecMatchFrom(b, l, 1, b, 4, s);
    assert [0, 0, 1, 0][1..] == [0, 1, 0];
    assert [Accessor(4, 0, None)] + [Accessor(5, 0, Some("x"))] == [Accessor(4, 0, None), Accessor(5, 0, Some("x"))];
    assert SpecMatchFrom(b, l, 1, b, 4, s).spec.raw == [0, 0, 1, 0];
    assert Parsed(b, 4, [0, 0, 1, 0]).Ok?;
    assert !FirstsFit(b, l, 1, b, 4, MAX_LEN - 1);
  }
}
