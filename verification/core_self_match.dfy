/** A spec matched against the type it was parsed from (eBPF_app/libbpf/src/libbpf.c). */
module CoreSelfMatch {
  import opened BtfTypes
  import opened CoreBtf
  import opened CoreMatch
  import opened Options
  import opened Results
  import opened Words

  /** Steps from a composite through anonymous members to a field of a name. */
  ghost predicate Leads(b: Btf, id: Id, path: seq<nat>, name: string)
    requires Valid(b) && id < |b.types| && IsComposite(b.types[id].info.kind)
    decreases |path|
  {
    && path != [] && path[0] < b.types[id].info.vlen
    && var m := MembersOf(b, id)[path[0]];
       MemberInside(b.types, id, path[0]);
       if |path| == 1 then name != "" && Name(b, m.nameOff) == name
       else
         && Name(b, m.nameOff) == "" && IsComposite(b.types[Skip(b.types, m.typ)].info.kind)
         && Leads(b, Skip(b.types, m.typ), path[1..], name)
  }

  /** Anonymous members nest at most d deep. */
  ghost predicate Shallow(b: Btf, id: Id, d: nat)
    requires Valid(b) && id < |b.types| && IsComposite(b.types[id].info.kind)
    decreases d
  {
    d > 0 && forall i: nat :: i < b.types[id].info.vlen ==> MemberShallow(b, id, i, d)
  }

  ghost predicate MemberShallow(b: Btf, id: Id, i: nat, d: nat)
    requires Valid(b) && id < |b.types| && IsComposite(b.types[id].info.kind) && i < b.types[id].info.vlen && d > 0
    decreases d, 0
  {
    MemberInside(b.types, id, i);
    var m := MembersOf(b, id)[i];
    var tid := Skip(b.types, m.typ);
    Name(b, m.nameOff) == "" && IsComposite(b.types[tid].info.kind) ==> Shallow(b, tid, d - 1)
  }

  lemma LeadsUnfold(b: Btf, id: Id, path: seq<nat>, name: string)
    requires Valid(b) && id < |b.types| && IsComposite(b.types[id].info.kind) && Leads(b, id, path, name)
    ensures path != [] && path[0] < b.types[id].info.vlen
    ensures var m := MembersOf(b, id)[path[0]];
            && m.typ < |b.types|
            && if |path| == 1 then name != "" && Name(b, m.nameOff) == name
               else
                 && Name(b, m.nameOff) == "" && IsComposite(b.types[Skip(b.types, m.typ)].info.kind)
                 && Leads(b, Skip(b.types, m.typ), path[1..], name)
  {
    MemberInside(b.types, id, path[0]);
  }

  lemma {:induction false} LeadsCounts(b: Btf, id: Id, i: nat, path: seq<nat>, name: string, room: nat)
    requires Valid(b) && id < |b.types| && IsComposite(b.types[id].info.kind)
    requires Leads(b, id, path, name) && i <= path[0] && |path| <= room
    ensures CountFrom(b, id, i, name, room) >= 1
    decreases room, b.types[id].info.vlen - i
  {
    hide Name, Leads;
    LeadsUnfold(b, id, path, name);
    var m := MembersOf(b, id)[i];
    MemberInside(b.types, id, i);
    if i < path[0] {
      LeadsCounts(b, id, i + 1, path, name, room);
    } else if |path| > 1 {
      LeadsCounts(b, Skip(b.types, m.typ), 0, path[1..], name, room - 1);
    }
  }

  /** With room for the nesting, the search never gives up. */
  lemma {:induction false} ShallowHasRoom(b: Btf, id: Id, i: nat, d: nat, name: string, room: nat)
    requires Valid(b) && id < |b.types| && IsComposite(b.types[id].info.kind) && Shallow(b, id, d) && d <= room
    ensures FindFrom(b, id, i, name, room) != NoRoom
    decreases room, b.types[id].info.vlen - i
  {
    hide FindFrom, Name;
    FindStep(b, id, i, name, room);
    if i < b.types[id].info.vlen {
      ShallowHasRoom(b, id, i + 1, d, name, room);
      var m := MembersOf(b, id)[i];
      var tid := Skip(b.types, m.typ);
      assert MemberShallow(b, id, i, d);
      if Name(b, m.nameOff) == "" && IsComposite(b.types[tid].info.kind) {
        ShallowHasRoom(b, tid, 0, d - 1, name, room - 1);
      }
    }
  }

  /** The search finds the only field of the name, along the path that leads to it. */
  lemma {:induction false} FindsThePath(b: Btf, id: Id, i: nat, path: seq<nat>, name: string, d: nat, room: nat)
    requires Valid(b) && id < |b.types| && IsComposite(b.types[id].info.kind)
    requires Leads(b, id, path, name) && i <= path[0] && |path| <= room
    requires Shallow(b, id, d) && d <= room && CountFrom(b, id, i, name, room) <= 1
    ensures FindFrom(b, id, i, name, room).At? && FindFrom(b, id, i, name, room).hit.path == path
    decreases room, b.types[id].info.vlen - i
  {
    hide FindFrom, Name;
    var m := MembersOf(b, id)[i];
    FindStep(b, id, i, name, room);
    assert MemberShallow(b, id, i, d);
    var tid := Skip(b.types, m.typ);
    if i < path[0] {
      LeadsCounts(b, id, i + 1, path, name, room);
      if Name(b, m.nameOff) == "" && IsComposite(b.types[tid].info.kind) {
        ShallowHasRoom(b, tid, 0, d - 1, name, room - 1);
        FoundCounts(b, tid, 0, name, room - 1);
      }
      FindsThePath(b, id, i + 1, path, name, d, room);
    } else if |path| > 1 {
      FindsThePath(b, tid, 0, path[1..], name, d - 1, room - 1);
      assert [i] + path[1..] == path;
    }
  }

  /** A path on which every anonymous member is followed by a step into it, as
      into a composite. */
  ghost predicate Proper(b: Btf, id: Id, steps: seq<nat>)
    requires Valid(b) && id < |b.types|
    decreases |steps|
  {
    steps != [] ==>
      match Step(b, id, steps[0])
      case Ok(s) =>
        && (s.accs == [] ==> |steps| > 1 && IsComposite(b.types[Skip(b.types, s.end)].info.kind))
        && Proper(b, s.end, steps[1..])
      case _ => false
  }

  lemma ProperSkips(b: Btf, id: Id, steps: seq<nat>)
    requires Valid(b) && id < |b.types|
    ensures Proper(b, id, steps) <==> Proper(b, Skip(b.types, id), steps)
  {
    SkipTwice(b.types, id);
  }

  /** The steps up to the first field. */
  ghost function FirstField(b: Btf, id: Id, steps: seq<nat>): (k: nat)
    requires Valid(b) && id < |b.types| && steps != [] && Proper(b, id, steps)
    ensures 0 < k <= |steps|
    decreases |steps|
  {
    var s := Step(b, id, steps[0]).value;
    if s.accs != [] then 1 else 1 + FirstField(b, s.end, steps[1..])
  }

  /** They lead to the field that the first accessor names. */
  lemma {:induction false} FirstFieldLeads(b: Btf, id: Id, from: Id, steps: seq<nat>)
    requires Valid(b) && NamesOk(b) && from < |b.types| && id == Skip(b.types, from)
    requires IsComposite(b.types[id].info.kind)
    requires steps != [] && Proper(b, from, steps) && Walk(b, from, steps).Ok?
    ensures var k, accs := FirstField(b, from, steps), Walk(b, from, steps).value.accs;
            accs != [] && accs[0].name.Some? && Leads(b, id, steps[..k], accs[0].name.value)
    decreases |steps|
  {
    hide Name;
    SkipTwice(b.types, from);
    StepInside(b, id, steps[0]);
    MemberStep(b, id, steps[0]);
    assert Step(b, from, steps[0]) == Step(b, id, steps[0]);
    var m := MembersOf(b, id)[steps[0]];
    var k := FirstField(b, from, steps);
    if Name(b, m.nameOff) == "" {
      FirstFieldLeads(b, Skip(b.types, m.typ), m.typ, steps[1..]);
      assert steps[..k][1..] == steps[1..][..k - 1];
    }
  }

  lemma StepInside(b: Btf, id: Id, i: nat)
    requires Valid(b) && id < |b.types| && IsComposite(b.types[id].info.kind) && Step(b, id, i).Ok?
    ensures i < b.types[id].info.vlen && Skip(b.types, id) == id
  {
  }

  /** What follows a hit is proper too, and the hit's accessor says what its type is. */
  lemma {:induction false} HitProper(b: Btf, id: Id, i: nat, name: string, room: nat, rest: seq<nat>)
    requires Valid(b) && NamesOk(b) && id < |b.types| && IsComposite(b.types[id].info.kind) && name != ""
    requires FindFrom(b, id, i, name, room).At?
    requires Proper(b, id, FindFrom(b, id, i, name, room).hit.path + rest)
    ensures var h := FindFrom(b, id, i, name, room).hit;
            && Proper(b, h.next, rest)
            && h.owner < |b.types| && IsComposite(b.types[h.owner].info.kind)
            && h.path[|h.path| - 1] < b.types[h.owner].info.vlen
            && MembersOf(b, h.owner)[h.path[|h.path| - 1]].typ == h.next
    decreases room, b.types[id].info.vlen - i
  {
    hide Step, Behind, FindFrom, Name;
    FindStep(b, id, i, name, room);
    var m, h := MembersOf(b, id)[i], FindFrom(b, id, i, name, room).hit;
    MemberStep(b, id, i);
    if Name(b, m.nameOff) == "" {
      var f := FindBelow(b, m.typ, name, room - 1);
      if f.At? {
        assert (h.path + rest)[1..] == f.hit.path + rest;
        ProperSkips(b, m.typ, f.hit.path + rest);
        HitProper(b, Skip(b.types, m.typ), 0, name, room - 1, rest);
      } else {
        HitProper(b, id, i + 1, name, room, rest);
      }
    } else if Name(b, m.nameOff) == name {
      assert (h.path + rest)[1..] == rest;
    } else {
      HitProper(b, id, i + 1, name, room, rest);
    }
  }

  /** No element is 2 GiB large. */
  ghost predicate SmallSizes(b: Btf)
    requires Valid(b)
  {
    forall x: Id :: x < |b.types| && ResolvedSize(b.types, x).Ok? ==> ResolvedSize(b.types, x).value <= INT_MAX
  }

  ghost predicate AllShallow(b: Btf, d: nat)
    requires Valid(b)
  {
    d > 0 && forall x: Id :: x < |b.types| && IsComposite(b.types[x].info.kind) ==> Shallow(b, x, d)
  }

  /** Types that a spec can be matched in without losing its way. */
  ghost predicate Matchable(b: Btf, d: nat) {
    Valid(b) && NamesOk(b) && UniqueNames(b) && SmallSizes(b) && AllShallow(b, d)
  }

  /** The named fields are of types that can be relocated. */
  ghost predicate FieldsRelocatable(b: Btf, accs: seq<Accessor>)
    requires Valid(b) && LocalSpec(b, accs)
  {
    forall k :: 0 <= k < |accs| && accs[k].name.Some? ==> Relocatable(b, LocalField(b, accs[k]))
  }

  /** The search finds the field that a parsed spec goes to. */
  lemma FindsFirstField(b: Btf, d: nat, from: Id, steps: seq<nat>, room: nat)
    requires Matchable(b, d) && from < |b.types| && IsComposite(b.types[Skip(b.types, from)].info.kind)
    requires |steps| <= room <= MAX_LEN && d <= room
    requires steps != [] && Proper(b, from, steps) && Walk(b, from, steps).Ok?
    ensures var tid, k, accs := Skip(b.types, from), FirstField(b, from, steps), Walk(b, from, steps).value.accs;
            && accs != [] && accs[0].name.Some? && accs[0].name.value != ""
            && FindFrom(b, tid, 0, accs[0].name.value, room).At?
            && FindFrom(b, tid, 0, accs[0].name.value, room).hit.path == steps[..k]
  {
    hide FindFrom, Step, Proper, Shallow, NamesOk, SmallSizes, CountFrom, FirstField, Name;
    var tid, k := Skip(b.types, from), FirstField(b, from, steps);
    FirstFieldLeads(b, tid, from, steps);
    var name := Walk(b, from, steps).value.accs[0].name.value;
    LeadsToName(b, tid, steps[..k], name);
    FewerInLessRoom(b, tid, 0, name, room, MAX_LEN);
    FindsThePath(b, tid, 0, steps[..k], name, d, room);
  }

  lemma {:induction false} LeadsToName(b: Btf, id: Id, path: seq<nat>, name: string)
    requires Valid(b) && id < |b.types| && IsComposite(b.types[id].info.kind) && Leads(b, id, path, name)
    ensures name != ""
    decreases |path|
  {
    if |path| > 1 {
      var m := MembersOf(b, id)[path[0]];
      MemberInside(b.types, id, path[0]);
      LeadsToName(b, Skip(b.types, m.typ), path[1..], name);
    }
  }

  /** A field of a parsed spec is found again where it is. */
  lemma FieldAgain(b: Btf, d: nat, acc: Accessor, from: Id, s: Spec, steps: seq<nat>, accs: seq<Accessor>)
    requires Matchable(b, d) && from < |b.types| && IsComposite(b.types[Skip(b.types, from)].info.kind)
    requires |s.raw| + |steps| <= MAX_LEN && |s.raw| + d <= MAX_LEN && s.bitOffset < U32
    requires steps != [] && Proper(b, from, steps) && Walk(b, from, steps).Ok?
    requires Walk(b, from, steps).value.accs == [acc] + accs
    requires NamedIn(b, acc) && Relocatable(b, LocalField(b, acc))
    ensures var k, o := FirstField(b, from, steps), MatchBelow(b, acc, b, Skip(b.types, from), s);
            && o.verdict == Found && Proper(b, o.next, steps[k..])
            && o.spec.accs == s.accs + [acc] && o.spec.raw == s.raw + steps[..k]
            && var w := Walk(b, o.next, steps[k..]);
               && w.Ok? && w.value.accs == accs && w.value.end == Walk(b, from, steps).value.end
               && Plus(o.spec.bitOffset, w.value.offset) == Plus(s.bitOffset, Walk(b, from, steps).value.offset)
  {
    hide NamedIn, Relocatable, Compatible, MatchBelow, FindFrom, Step, Proper, FirstField, Shallow, NamesOk,
         SmallSizes, CountFrom, Walk;
    var tid, k, room := Skip(b.types, from), FirstField(b, from, steps), MAX_LEN - |s.raw|;
    FindsFirstField(b, d, from, steps, room);
    var rest, name := steps[k..], acc.name.value;
    assert ([acc] + accs)[0] == acc;
    var h := FindFrom(b, tid, 0, name, room).hit;
    assert steps == h.path + rest;
    SkipTwice(b.types, from);
    MatchBelowEndsAs(b, acc, b, tid, s);
    WalkSkips(b, from, steps);
    ProperSkips(b, from, steps);
    HitWalks(b, tid, 0, name, room, rest);
    HitProper(b, tid, 0, name, room, rest);
    BehindParts(acc, accs, Accessor(h.owner, h.path[|h.path| - 1], Some(name)), h.offset, Walk(b, h.next, rest),
                Walk(b, from, steps).value);
    FieldIs(b, acc, h);
  }

  lemma BehindParts(acc: Accessor, accs: seq<Accessor>, found: Accessor, offset: nat, rest: Result<Walked>, w: Walked)
    requires Behind([found], offset, rest) == Ok(w) && w.accs == [acc] + accs
    ensures acc == found && rest.Ok? && rest.value.accs == accs && w.offset == offset + rest.value.offset
    ensures w.end == rest.value.end
  {
    assert w.accs[0] == found && w.accs[1..] == rest.value.accs;
    assert ([acc] + accs)[1..] == accs;
  }

  /** The field is compatible with itself. */
  lemma FieldIs(b: Btf, acc: Accessor, h: Hit)
    requires Valid(b) && NamedIn(b, acc) && Relocatable(b, LocalField(b, acc))
    requires h.path != [] && acc == Accessor(h.owner, h.path[|h.path| - 1], acc.name) && h.owner < |b.types|
    requires IsComposite(b.types[h.owner].info.kind) && h.path[|h.path| - 1] < b.types[h.owner].info.vlen
    requires MembersOf(b, h.owner)[h.path[|h.path| - 1]].typ == h.next
    ensures h.next < |b.types| && LocalField(b, acc) == h.next && Compatible(b, LocalField(b, acc), b, h.next)
  {
    SelfCompatible(b, LocalField(b, acc));
  }

  /** An array element of a parsed spec is found again. */
  lemma ElementAgain(b: Btf, from: Id, steps: seq<nat>)
    requires Valid(b) && from < |b.types| && !IsComposite(b.types[Skip(b.types, from)].info.kind)
    requires steps != [] && Proper(b, from, steps) && Walk(b, from, steps).Ok?
    ensures var tid := Skip(b.types, from);
            && b.types[tid].info.kind == Array && steps[0] < b.types[tid].payload.nelems
            && var eid := ElementType(b, from);
               && ResolvedSize(b.types, eid).Ok? && Proper(b, eid, steps[1..])
               && Walk(b, from, steps) ==
                    Behind([Accessor(eid, steps[0], None)], Span(steps[0], ResolvedSize(b.types, eid).value),
                           Walk(b, eid, steps[1..]))
  {
  }

  lemma PlusPlus(a: nat, m: nat, n: nat)
    ensures Plus(Plus(a, m), n) == Plus(a, m + n)
  {
  }

  lemma PlusZero(m: nat)
    ensures Plus(0, m) == m % U32
  {
  }

  lemma HeadTail<T>(s: seq<T>)
    requires s != []
    ensures [s[0]] + s[1..] == s
  {
  }

  lemma Rejoin<T>(a: seq<T>, c: seq<T>, i: nat, k: nat)
    requires i + k <= |c|
    ensures a + c[i..i + k] + c[i + k..] == a + c[i..] && c[0..] == c
    ensures k == 1 ==> c[i..i + k] == [c[i]]
  {
  }

  lemma SelfMatchEnd(b: Btf, accs: seq<Accessor>, i: nat, from: Id, s: Spec)
    requires Valid(b) && LocalSpec(b, accs) && from < |b.types| && i <= |accs| && |s.raw| <= MAX_LEN
    requires s.bitOffset < U32
    requires Walk(b, from, []).Ok? && Walk(b, from, []).value.accs == accs[i..]
    ensures MatchesSteps(b, accs, i, from, s, [])
  {
    assert s.accs + accs[i..] == s.accs && s.raw + [] == s.raw;
  }

  /** One field of the spec. */
  lemma SelfMatchField(b: Btf, d: nat, accs: seq<Accessor>, i: nat, from: Id, s: Spec, steps: seq<nat>)
    requires Matchable(b, d) && LocalSpec(b, accs) && FieldsRelocatable(b, accs) && from < |b.types|
    requires IsComposite(b.types[Skip(b.types, from)].info.kind) && steps != []
    requires 0 < i <= |accs| && s.bitOffset < U32 && |s.raw| + |steps| <= MAX_LEN
    requires |s.raw| + |steps| + d <= MAX_LEN + 1
    requires Proper(b, from, steps) && Walk(b, from, steps).Ok? && Walk(b, from, steps).value.accs == accs[i..]
    ensures i < |accs| && NamedIn(b, accs[i])
    ensures var k, o := FirstField(b, from, steps), MatchBelow(b, accs[i], b, Skip(b.types, from), s);
            && o.spec.accs == s.accs + [accs[i]] && o.spec.raw == s.raw + steps[..k] && Proper(b, o.next, steps[k..])
            && Walk(b, o.next, steps[k..]).Ok?
            && var w := Walk(b, o.next, steps[k..]).value;
               && w.accs == accs[i + 1..] && w.end == Walk(b, from, steps).value.end
               && Plus(o.spec.bitOffset, w.offset) == Plus(s.bitOffset, Walk(b, from, steps).value.offset)
               && SpecMatchFrom(b, accs, i, b, from, s) == SpecMatchFrom(b, accs, i + 1, b, o.next, o.spec)
  {
    hide MatchBelow, Proper, FirstField, Relocatable, NamedIn, NamesOk, UniqueNames, AllShallow, Step, Walk;
    FindsFirstField(b, d, from, steps, MAX_LEN - |s.raw|);
    assert accs[i..][0] == accs[i];
    assert accs[i..] == [accs[i]] + accs[i + 1..];
    FieldAgain(b, d, accs[i], from, s, steps, accs[i + 1..]);
  }

  /** One array element of the spec. */
  lemma SelfMatchElement(b: Btf, d: nat, accs: seq<Accessor>, i: nat, from: Id, s: Spec, steps: seq<nat>)
    requires Matchable(b, d) && LocalSpec(b, accs) && from < |b.types|
    requires !IsComposite(b.types[Skip(b.types, from)].info.kind)
    requires 0 < i <= |accs| && s.bitOffset < U32 && |s.raw| < MAX_LEN && steps != []
    requires Proper(b, from, steps) && Walk(b, from, steps).Ok? && Walk(b, from, steps).value.accs == accs[i..]
    ensures b.types[Skip(b.types, from)].info.kind == Array && i < |accs|
    ensures var eid := ElementType(b, from);
            && ResolvedSize(b.types, eid).Ok? && Proper(b, eid, steps[1..]) && Walk(b, eid, steps[1..]).Ok?
            && var offset, w := Span(steps[0], ResolvedSize(b.types, eid).value), Walk(b, eid, steps[1..]).value;
               && accs[i] == Accessor(eid, steps[0], None) && w.accs == accs[i + 1..]
               && w.end == Walk(b, from, steps).value.end && Walk(b, from, steps).value.offset == offset + w.offset
               && SpecMatchFrom(b, accs, i, b, from, s) ==
                    SpecMatchFrom(b, accs, i + 1, b, eid,
                                  Spec(s.accs + [accs[i]], s.raw + [steps[0]], Plus(s.bitOffset, offset)))
  {
    ElementAgain(b, from, steps);
    hide MatchBelow, ResolvedSize, Proper, NamedIn, NamesOk, UniqueNames, AllShallow, Step;
    var eid := ElementType(b, from);
    InnerInside(b.types, Skip(b.types, from));
    var found, sz := Accessor(eid, steps[0], None), ResolvedSize(b.types, eid).value;
    var w := Walk(b, from, steps).value;
    assert w.accs[0] == found && accs[i..][0] == accs[i];
    assert accs[i + 1..] == accs[i..][1..];
    assert w.accs[1..] == Walk(b, eid, steps[1..]).value.accs;
    assert sz <= INT_MAX;
  }

  /** The accessors from number i on match the steps they were parsed from. */
  ghost predicate MatchesSteps(b: Btf, accs: seq<Accessor>, i: nat, from: Id, s: Spec, steps: seq<nat>)
    requires Valid(b) && LocalSpec(b, accs) && from < |b.types| && |s.raw| <= MAX_LEN && s.bitOffset < U32
    requires i <= |accs|
  {
    && Walk(b, from, steps).Ok?
    && var w := Walk(b, from, steps).value;
       SpecMatchFrom(b, accs, i, b, from, s) ==
         Outcome(Found, Spec(s.accs + accs[i..], s.raw + steps, Plus(s.bitOffset, w.offset)), w.end)
  }

  lemma {:induction false} SelfMatchFrom(b: Btf, d: nat, accs: seq<Accessor>, i: nat, from: Id, s: Spec,
                                         steps: seq<nat>)
    requires Matchable(b, d) && LocalSpec(b, accs) && FieldsRelocatable(b, accs) && from < |b.types|
    requires 0 < i <= |accs| && s.bitOffset < U32 && |s.raw| + |steps| <= MAX_LEN
    requires |s.raw| + |steps| + d <= MAX_LEN + 1
    requires Proper(b, from, steps) && Walk(b, from, steps).Ok? && Walk(b, from, steps).value.accs == accs[i..]
    ensures MatchesSteps(b, accs, i, from, s, steps)
    decreases |accs| - i
  {
    assert Valid(b);
    hide SpecMatchFrom, MatchesSteps, Walk, Proper, FirstField, Matchable, ResolvedSize, LocalSpec,
         FieldsRelocatable, Valid, NamedIn, Plus, MatchBelow, Span;
    var tid := Skip(b.types, from);
    if steps == [] {
      SelfMatchEnd(b, accs, i, from, s);
    } else if IsComposite(b.types[tid].info.kind) {
      SelfMatchField(b, d, accs, i, from, s, steps);
      var k, o := FirstField(b, from, steps), MatchBelow(b, accs[i], b, tid, s);
      SelfMatchFrom(b, d, accs, i + 1, o.next, o.spec, steps[k..]);
      FieldThenRest(b, d, accs, i, from, s, steps);
    } else {
      SelfMatchElement(b, d, accs, i, from, s, steps);
      SelfMatchFrom(b, d, accs, i + 1, ElementType(b, from), AfterElement(b, accs, i, from, s, steps), steps[1..]);
      ElementThenRest(b, d, accs, i, from, s, steps);
    }
  }

  /** The target spec after an array element. */
  ghost function AfterElement(b: Btf, accs: seq<Accessor>, i: nat, from: Id, s: Spec, steps: seq<nat>): (r: Spec)
    requires Valid(b) && from < |b.types| && b.types[Skip(b.types, from)].info.kind == Array && i < |accs|
    requires steps != []
    requires ResolvedSize(b.types, ElementType(b, from)).Ok?
    ensures |r.raw| == |s.raw| + 1 && r.bitOffset < U32
  {
    Spec(s.accs + [accs[i]], s.raw + [steps[0]],
         Plus(s.bitOffset, Span(steps[0], ResolvedSize(b.types, ElementType(b, from)).value)))
  }

  lemma FieldThenRest(b: Btf, d: nat, accs: seq<Accessor>, i: nat, from: Id, s: Spec, steps: seq<nat>)
    requires Matchable(b, d) && LocalSpec(b, accs) && FieldsRelocatable(b, accs) && from < |b.types|
    requires IsComposite(b.types[Skip(b.types, from)].info.kind) && steps != []
    requires 0 < i < |accs| && s.bitOffset < U32 && |s.raw| + |steps| <= MAX_LEN && |s.raw| + |steps| + d <= MAX_LEN + 1
    requires Proper(b, from, steps) && Walk(b, from, steps).Ok? && Walk(b, from, steps).value.accs == accs[i..]
    requires NamedIn(b, accs[i])
    requires var o := MatchBelow(b, accs[i], b, Skip(b.types, from), s);
             MatchesSteps(b, accs, i + 1, o.next, o.spec, steps[FirstField(b, from, steps)..])
    ensures MatchesSteps(b, accs, i, from, s, steps)
  {
    SelfMatchField(b, d, accs, i, from, s, steps);
    hide SpecMatchFrom, Walk, Proper, FirstField, Matchable, LocalSpec, FieldsRelocatable, NamedIn, Plus, MatchBelow;
    Rejoin(s.accs, accs, i, 1);
    Rejoin(s.raw, steps, 0, FirstField(b, from, steps));
  }

  lemma ElementThenRest(b: Btf, d: nat, accs: seq<Accessor>, i: nat, from: Id, s: Spec, steps: seq<nat>)
    requires Matchable(b, d) && LocalSpec(b, accs) && from < |b.types|
    requires !IsComposite(b.types[Skip(b.types, from)].info.kind)
    requires 0 < i < |accs| && s.bitOffset < U32 && |s.raw| < MAX_LEN && steps != []
    requires Proper(b, from, steps) && Walk(b, from, steps).Ok? && Walk(b, from, steps).value.accs == accs[i..]
    requires b.types[Skip(b.types, from)].info.kind == Array && ResolvedSize(b.types, ElementType(b, from)).Ok?
    requires MatchesSteps(b, accs, i + 1, ElementType(b, from), AfterElement(b, accs, i, from, s, steps), steps[1..])
    ensures MatchesSteps(b, accs, i, from, s, steps)
  {
    SelfMatchElement(b, d, accs, i, from, s, steps);
    hide SpecMatchFrom, Walk, Proper, Matchable, LocalSpec, Plus, Span, ResolvedSize, Skip;
    var eid := ElementType(b, from);
    var offset, v := Span(steps[0], ResolvedSize(b.types, eid).value), Walk(b, eid, steps[1..]).value;
    Reassembled(SpecMatchFrom(b, accs, i, b, from, s), s, accs, i, steps, offset, Walk(b, from, steps).value, v);
  }

  lemma Reassembled(o: Outcome, s: Spec, accs: seq<Accessor>, i: nat, steps: seq<nat>, offset: nat, w: Walked,
                    v: Walked)
    requires steps != [] && i < |accs| && w.offset == offset + v.offset && w.end == v.end
    requires o ==
               Outcome(Found, Spec(s.accs + [accs[i]] + accs[i + 1..], s.raw + [steps[0]] + steps[1..],
                                   Plus(Plus(s.bitOffset, offset), v.offset)), v.end)
    ensures o == Outcome(Found, Spec(s.accs + accs[i..], s.raw + steps, Plus(s.bitOffset, w.offset)), w.end)
  {
    PlusPlus(s.bitOffset, offset, v.offset);
    Rejoin(s.accs, accs, i, 1);
    Rejoin(s.raw, steps, 0, 1);
  }

  /** The first accessor, which counts objects of the root type. */
  lemma SelfMatchRoot(b: Btf, typeId: Id, raw: seq<nat>)
    requires Valid(b) && SmallSizes(b) && typeId < |b.types| && Parsed(b, typeId, raw).Ok?
    requires LocalSpec(b, Parsed(b, typeId, raw).value.accs)
    ensures var id, w := Skip(b.types, typeId), Parsed(b, typeId, raw).value;
            && ResolvedSize(b.types, id).Ok? && Walk(b, id, raw[1..]).Ok?
            && var first, offset, v := Accessor(id, raw[0], None), Span(raw[0], ResolvedSize(b.types, id).value),
                                       Walk(b, id, raw[1..]).value;
               && w == Walked([first] + v.accs, offset + v.offset, v.end)
               && SpecMatchFrom(b, w.accs, 0, b, typeId, Spec([], [], 0)) ==
                    SpecMatchFrom(b, w.accs, 1, b, id, Spec([first], [raw[0]], Plus(0, offset)))
  {
    hide MatchBelow, Step, Walk, NamedIn, ResolvedSize;
    var id, w := Skip(b.types, typeId), Parsed(b, typeId, raw).value;
    InnerInside(b.types, id);
    assert [] + [w.accs[0]] == [w.accs[0]] && [] + [raw[0]] == [raw[0]];
  }

  /** A parsed spec matches its own type and gives itself back: the same
      accessors, raw path and bit offset. */
  lemma SelfMatch(b: Btf, d: nat, typeId: Id, raw: seq<nat>)
    requires Matchable(b, d) && typeId < |b.types| && Parsed(b, typeId, raw).Ok? && |raw| + d <= MAX_LEN + 1
    requires Proper(b, Skip(b.types, typeId), raw[1..])
    ensures LocalSpec(b, Parsed(b, typeId, raw).value.accs)
    ensures var w := Parsed(b, typeId, raw).value;
            FieldsRelocatable(b, w.accs) ==>
              SpecMatchFrom(b, w.accs, 0, b, typeId, Spec([], [], 0)) ==
                Outcome(Found, Spec(w.accs, raw, w.offset % U32), w.end)
  {
    ParsedIsLocal(b, typeId, raw);
    assert Valid(b) && SmallSizes(b) && 0 < |raw| <= MAX_LEN;
    hide Walk, SpecMatchFrom, Proper, Parsed, Matchable, LocalSpec, FieldsRelocatable, SmallSizes, Valid, Plus, Skip,
         Span, MatchesSteps;
    var id, w := Skip(b.types, typeId), Parsed(b, typeId, raw).value;
    SelfMatchRoot(b, typeId, raw);
    if FieldsRelocatable(b, w.accs) {
      var first, offset := Accessor(id, raw[0], None), Span(raw[0], ResolvedSize(b.types, id).value);
      assert w.accs[1..] == Walk(b, id, raw[1..]).value.accs;
      SelfMatchFrom(b, d, w.accs, 1, id, Spec([first], [raw[0]], Plus(0, offset)), raw[1..]);
      RootThenRest(b, typeId, raw);
      PlusZero(w.offset);
    }
  }

  lemma RootThenRest(b: Btf, typeId: Id, raw: seq<nat>)
    requires Valid(b) && SmallSizes(b) && typeId < |b.types| && Parsed(b, typeId, raw).Ok?
    requires LocalSpec(b, Parsed(b, typeId, raw).value.accs)
    requires ResolvedSize(b.types, Skip(b.types, typeId)).Ok?
    requires var id := Skip(b.types, typeId);
             MatchesSteps(b, Parsed(b, typeId, raw).value.accs, 1, id,
                          Spec([Accessor(id, raw[0], None)], [raw[0]],
                               Plus(0, Span(raw[0], ResolvedSize(b.types, id).value))), raw[1..])
    ensures var w := Parsed(b, typeId, raw).value;
            SpecMatchFrom(b, w.accs, 0, b, typeId, Spec([], [], 0)) ==
              Outcome(Found, Spec(w.accs, raw, Plus(0, w.offset)), w.end)
  {
    assert raw != [];
    SelfMatchRoot(b, typeId, raw);
    hide Walk, SpecMatchFrom, SmallSizes, Plus, Span, ResolvedSize, LocalSpec, Valid, Parsed, Skip;
    var id, w := Skip(b.types, typeId), Parsed(b, typeId, raw).value;
    var first, offset, v := Accessor(id, raw[0], None), Span(raw[0], ResolvedSize(b.types, id).value),
        Walk(b, id, raw[1..]).value;
    var o := SpecMatchFrom(b, w.accs, 1, b, id, Spec([first], [raw[0]], Plus(0, offset)));
    Assembled(o, first, raw, offset, w, v);
  }

  lemma Assembled(o: Outcome, first: Accessor, raw: seq<nat>, offset: nat, w: Walked, v: Walked)
    requires raw != [] && w == Walked([first] + v.accs, offset + v.offset, v.end)
    requires o ==
               Outcome(Found, Spec([first] + w.accs[1..], [raw[0]] + raw[1..], Plus(Plus(0, offset), v.offset)), v.end)
    ensures o == Outcome(Found, Spec(w.accs, raw, Plus(0, w.offset)), w.end)
  {
    PlusPlus(0, offset, v.offset);
    HeadTail(w.accs);
    HeadTail(raw);
  }
}
