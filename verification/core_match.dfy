/** Access specs of CO-RE relocations: parsing, and matching against a target
    type (eBPF_app/libbpf/src/libbpf.c). */
module CoreMatch {
  import BtfStrings
  import opened BtfTypes
  import opened CoreBtf
  import opened Options
  import opened Results
  import opened Words

  const MAX_LEN: nat := 64

  /** A step of the high-level spec: a named field, or an array element. */
  datatype Accessor = Accessor(typeId: Id, idx: nat, name: Option<string>)

  /** What a path leads to from some type: its accessors, its bit offset, and
      the type it ends at. */
  datatype Walked = Walked(accs: seq<Accessor>, offset: nat, end: Id)

  /** btf_member_bit_offset. */
  function MemberOffset(t: BtfType, m: Member): nat {
    if t.info.kflag then m.offset % 0x100_0000 else m.offset
  }

  function MembersOf(b: Btf, id: Id): (ms: seq<Member>)
    requires id < |b.types| && IsComposite(b.types[id].info.kind) && WellFormed(b.types[id])
  {
    b.types[id].payload.members
  }

  /** The bits that some elements take. */
  function Span(n: nat, size: nat): nat {
    n * size * 8
  }

  /** One path after another: what comes first is put in front. */
  function Behind(accs: seq<Accessor>, offset: nat, rest: Result<Walked>): Result<Walked> {
    match rest
    case Ok(w) => Ok(Walked(accs + w.accs, offset + w.offset, w.end))
    case e => e
  }

  /** One step of a path, from some type: into a member or an array element.
      An anonymous member adds no accessor. */
  ghost function Step(b: Btf, id: Id, i: nat): (r: Result<Walked>)
    requires Valid(b) && id < |b.types|
    ensures r.Ok? ==> r.value.end < |b.types|
  {
    var tid := Skip(b.types, id);
    var t := b.types[tid];
    InnerInside(b.types, tid);
    if IsComposite(t.info.kind) then
      if i >= t.info.vlen then Invalid
      else
        var m := MembersOf(b, tid)[i];
        MemberInside(b.types, tid, i);
        if m.nameOff == 0 then Ok(Walked([], MemberOffset(t, m), m.typ))
        else if Name(b, m.nameOff) == "" then Invalid
        else Ok(Walked([Accessor(tid, i, Some(Name(b, m.nameOff)))], MemberOffset(t, m), m.typ))
    else if t.info.kind == Array then
      var eid := Skip(b.types, t.payload.elem);
      if i >= t.payload.nelems then Invalid
      else match ResolvedSize(b.types, eid)
           case Ok(sz) => Ok(Walked([Accessor(eid, i, None)], Span(i, sz), eid))
           case Invalid => Invalid
           case TooBig => TooBig
    else Invalid
  }

  /** The meaning of a raw path. */
  ghost function Walk(b: Btf, id: Id, steps: seq<nat>): (r: Result<Walked>)
    requires Valid(b) && id < |b.types|
    ensures r.Ok? ==> r.value.end < |b.types|
    decreases |steps|
  {
    if steps == [] then Ok(Walked([], 0, id))
    else match Step(b, id, steps[0])
         case Ok(s) => Behind(s.accs, s.offset, Walk(b, s.end, steps[1..]))
         case Invalid => Invalid
         case TooBig => TooBig
  }

  lemma BehindBehind(a: seq<Accessor>, m: nat, c: seq<Accessor>, n: nat, r: Result<Walked>)
    ensures Behind(a, m, Behind(c, n, r)) == Behind(a + c, m + n, r)
  {
    if r.Ok? {
      assert a + (c + r.value.accs) == a + c + r.value.accs;
    }
  }

  /** The meaning of a whole spec: the first index counts objects of the root type. */
  ghost function Parsed(b: Btf, typeId: Id, raw: seq<nat>): (r: Result<Walked>)
    requires Valid(b) && typeId < |b.types|
    ensures r.Ok? ==> r.value.end < |b.types|
  {
    if raw == [] then Invalid
    else if |raw| > MAX_LEN then TooBig
    else
      var id := Skip(b.types, typeId);
      match ResolvedSize(b.types, id)
      case Ok(sz) => Behind([Accessor(id, raw[0], None)], Span(raw[0], sz), Walk(b, id, raw[1..]))
      case Invalid => Invalid
      case TooBig => TooBig
  }

  /** struct bpf_core_spec. */
  datatype Spec = Spec(accs: seq<Accessor>, raw: seq<nat>, bitOffset: nat)

  /** An addition or subtraction in 32 bits. */
  function Plus(a: nat, n: int): (r: nat)
    ensures r < U32
  {
    (a + n) % U32
  }

  /** An index as the unsigned word it is compared and stored as. */
  function Unsigned(i: int): (w: nat)
    ensures w < U32
    ensures IsInt(i) ==> w == if i < 0 then 0x1_0000_0000 + i else i
  {
    i % U32
  }

  function AsWords(indices: seq<int>): (ws: seq<nat>)
    ensures |ws| == |indices| && forall k :: 0 <= k < |ws| ==> ws[k] == Unsigned(indices[k])
  {
    seq(|indices|, k requires 0 <= k < |indices| => Unsigned(indices[k]))
  }

  predicate IsInt(i: int) {
    -0x8000_0000 <= i < 0x8000_0000
  }

  /** A negative index into a struct or union passes the check against the number
      of members, which compares integers, and the code reads before the first. */
  ghost predicate StrayStep(b: Btf, id: Id, i: int)
    requires Valid(b) && id < |b.types|
  {
    i < 0 && IsComposite(b.types[Skip(b.types, id)].info.kind)
  }

  /** Some index takes a walk astray. */
  ghost predicate Strays(b: Btf, id: Id, indices: seq<int>)
    requires Valid(b) && id < |b.types|
    decreases |indices|
  {
    indices != [] && (StrayStep(b, id, indices[0]) || match Step(b, id, Unsigned(indices[0]))
                                                      case Ok(s) => Strays(b, s.end, indices[1..])
                                                      case _ => false)
  }

  /** One round of bpf_core_spec_parse. */
  method ParseStep(b: Btf, from: Id, accessIdx: int) returns (r: Result<Walked>, stray: bool)
    requires Valid(b) && from < |b.types| && IsInt(accessIdx)
    ensures stray <==> StrayStep(b, from, accessIdx)
    ensures !stray ==> r == Step(b, from, Unsigned(accessIdx))
  {
    var id := SkipModsAndTypedefs(b.types, from);
    var t := b.types[id];
    InnerInside(b.types, id);
    if IsComposite(t.info.kind) {
      if accessIdx >= t.info.vlen {
        return Invalid, false;
      }
      if accessIdx < 0 {
        return Invalid, true;
      }
      var m := MembersOf(b, id)[accessIdx];
      if m.nameOff == 0 {
        return Ok(Walked([], MemberOffset(t, m), m.typ)), false;
      }
      var name := Name(b, m.nameOff);
      if name == "" {
        return Invalid, false;
      }
      r := Ok(Walked([Accessor(id, accessIdx, Some(name))], MemberOffset(t, m), m.typ));
    } else if t.info.kind == Array {
      id := SkipModsAndTypedefs(b.types, t.payload.elem);
      var idx := Unsigned(accessIdx);
      if idx >= t.payload.nelems {
        return Invalid, false;
      }
      var sz := ResolveSize(b.types, id);
      match sz
      case Invalid => return Invalid, false;
      case TooBig => return TooBig, false;
      case Ok(size) => r := Ok(Walked([Accessor(id, idx, None)], Span(idx, size), id));
    } else {
      r := Invalid;
    }
    stray := false;
  }

  /** The loop of bpf_core_spec_parse over the indices after the first. */
  method ParseRest(b: Btf, root: Id, first: Accessor, offset: nat, raw: seq<int>) returns (r: Result<Spec>, stray: bool)
    requires Valid(b) && root < |b.types| && raw != [] && forall k :: 0 <= k < |raw| ==> IsInt(raw[k])
    ensures stray <==> Strays(b, root, raw[1..])
    ensures !stray ==>
              match Behind([first], offset, Walk(b, root, AsWords(raw)[1..]))
              case Ok(w) => r == Ok(Spec(w.accs, AsWords(raw), w.offset % U32))
              case Invalid => r == Invalid
              case TooBig => r == TooBig
  {
    hide Step, StrayStep, Valid, Behind;
    var id: Id, accs, bitOffset: nat := root, [first], offset % U32;
    ghost var exact: nat, words := offset, AsWords(raw);
    for i := 1 to |raw|
      invariant id < |b.types| && bitOffset == exact % U32
      invariant Strays(b, root, raw[1..]) <==> Strays(b, id, raw[i..])
      invariant Behind([first], offset, Walk(b, root, words[1..])) == Behind(accs, exact, Walk(b, id, words[i..]))
    {
      assert words[i..][1..] == words[i + 1..] && raw[i..][1..] == raw[i + 1..];
      BehindError(accs, exact);
      var step;
      step, stray := ParseStep(b, id, raw[i]);
      if stray {
        return Invalid, true;
      }
      match step
      case Invalid => return Invalid, false;
      case TooBig => return TooBig, false;
      case Ok(s) =>
        BehindBehind(accs, exact, s.accs, s.offset, Walk(b, s.end, words[i + 1..]));
        bitOffset := Plus(bitOffset, s.offset);
        exact := exact + s.offset;
        accs := accs + s.accs;
        id := s.end;
    }
    assert words[|raw|..] == [] && raw[|raw|..] == [];
    BehindEnd(accs, exact, id);
    r, stray := Ok(Spec(accs, AsWords(raw), bitOffset)), false;
  }

  lemma BehindError(accs: seq<Accessor>, offset: nat)
    ensures Behind(accs, offset, Invalid) == Invalid && Behind(accs, offset, TooBig) == TooBig
  {
  }

  lemma BehindEnd(accs: seq<Accessor>, offset: nat, id: Id)
    ensures Behind(accs, offset, Ok(Walked([], 0, id))) == Ok(Walked(accs, offset, id))
  {
    assert accs + [] == accs;
  }

  /** Without negative indices nothing goes astray, and the words are the indices. */
  lemma {:induction false} NaturalsStay(b: Btf, id: Id, indices: seq<int>)
    requires Valid(b) && id < |b.types| && forall k :: 0 <= k < |indices| ==> 0 <= indices[k] && IsInt(indices[k])
    ensures !Strays(b, id, indices) && AsWords(indices) == indices
    decreases |indices|
  {
    if indices != [] {
      var s := Step(b, id, Unsigned(indices[0]));
      if s.Ok? {
        NaturalsStay(b, s.value.end, indices[1..]);
      }
    }
  }

  lemma NothingStrays(b: Btf, typeId: Id, indices: seq<int>)
    requires Valid(b) && typeId < |b.types| && forall k :: 0 <= k < |indices| ==> 0 <= indices[k] && IsInt(indices[k])
    ensures AsWords(indices) == indices
    ensures indices != [] ==> !Strays(b, Skip(b.types, typeId), indices[1..])
  {
    if indices != [] {
      NaturalsStay(b, Skip(b.types, typeId), indices[1..]);
    }
  }

  /** bpf_core_spec_parse, from the indices that sscanf reads off the string: the
      accessors and the offset of the path, the offset in 32 bits. A negative
      index counts as the word it is, unless it makes the code read a member before
      the first (`stray`). */
  method SpecParse(b: Btf, typeId: Id, indices: seq<int>) returns (r: Result<Spec>, stray: bool)
    requires Valid(b) && typeId < |b.types| && forall k :: 0 <= k < |indices| ==> IsInt(indices[k])
    ensures stray <==> 0 < |indices| <= MAX_LEN && ResolvedSize(b.types, Skip(b.types, typeId)).Ok?
                       && Strays(b, Skip(b.types, typeId), indices[1..])
    ensures (forall k :: 0 <= k < |indices| ==> 0 <= indices[k]) ==> !stray && AsWords(indices) == indices
    ensures !stray ==>
              match Parsed(b, typeId, AsWords(indices))
              case Ok(w) => r == Ok(Spec(w.accs, AsWords(indices), w.offset % U32))
              case Invalid => r == Invalid
              case TooBig => r == TooBig
  {
    if forall k :: 0 <= k < |indices| ==> 0 <= indices[k] {
      NothingStrays(b, typeId, indices);
    }
    var raw: seq<int> := [];
    for i := 0 to |indices|
      invariant i <= MAX_LEN && raw == indices[..i]
    {
      if |raw| == MAX_LEN {
        return TooBig, false;
      }
      raw := raw + [indices[i]];
    }
    assert raw == indices;
    if |raw| == 0 {
      return Invalid, false;
    }
    var id: Id := SkipModsAndTypedefs(b.types, typeId);
    var first := Unsigned(raw[0]);
    var sz := ResolveSize(b.types, id);
    match sz
    case Invalid => return Invalid, false;
    case TooBig => return TooBig, false;
    case Ok(size) => r, stray := ParseRest(b, id, Accessor(id, first, None), Span(first, size), raw);
  }

  /* Matching. */

  datatype Verdict = Found | NotFound | Bad | TooDeep

  /** How a search ends: with what, the target spec as it is left, and the type
      of the field found. */
  datatype Outcome = Outcome(verdict: Verdict, spec: Spec, next: Id)

  /** A named accessor of the local spec. */
  ghost predicate NamedIn(l: Btf, acc: Accessor)
    requires Valid(l)
  {
    && acc.typeId < |l.types| && IsComposite(l.types[acc.typeId].info.kind) && acc.idx < l.types[acc.typeId].info.vlen
    && acc.name == Some(Name(l, MembersOf(l, acc.typeId)[acc.idx].nameOff)) && acc.name.value != ""
  }

  ghost function LocalField(l: Btf, acc: Accessor): (id: Id)
    requires Valid(l) && NamedIn(l, acc)
    ensures id < |l.types|
  {
    MemberInside(l.types, acc.typeId, acc.idx);
    MembersOf(l, acc.typeId)[acc.idx].typ
  }

  function Push(s: Spec, i: nat, offset: nat): Spec {
    Spec(s.accs, s.raw + [i], Plus(s.bitOffset, offset))
  }

  function Pop(s: Spec, offset: nat): Spec
    requires s.raw != []
  {
    Spec(s.accs, s.raw[..|s.raw| - 1], Plus(s.bitOffset, 0 - offset as int))
  }

  lemma PopPush(s: Spec, i: nat, offset: nat)
    requires s.bitOffset < U32
    ensures Pop(Push(s, i, offset), offset) == s
  {
    assert (s.raw + [i])[..|s.raw|] == s.raw;
  }

  /** The search of bpf_core_match_member through the members of a composite from
      number i on. A field with the right name but the wrong type ends it at
      once, with the field's step left in the spec. */
  ghost function MatchFrom(l: Btf, acc: Accessor, t: Btf, id: Id, i: nat, s: Spec): (o: Outcome)
    requires Valid(l) && Valid(t) && NamedIn(l, acc) && id < |t.types| && IsComposite(t.types[id].info.kind)
    requires |s.raw| <= MAX_LEN && s.bitOffset < U32
    ensures |s.raw| <= |o.spec.raw| <= MAX_LEN && o.spec.bitOffset < U32 && o.next < |t.types|
    decreases MAX_LEN - |s.raw|, 0, t.types[id].info.vlen - i
  {
    if i >= t.types[id].info.vlen then Outcome(NotFound, s, 0)
    else if |s.raw| == MAX_LEN then Outcome(TooDeep, s, 0)
    else
      var m := MembersOf(t, id)[i];
      MemberInside(t.types, id, i);
      var offset := MemberOffset(t.types[id], m);
      var s1 := Push(s, i, offset);
      if Name(t, m.nameOff) == "" then
        var o := MatchBelow(l, acc, t, m.typ, s1);
        if o.verdict != NotFound then o
        else MatchFrom(l, acc, t, id, i + 1, Pop(o.spec, offset))
      else if Name(t, m.nameOff) == acc.name.value then
        if Compatible(l, LocalField(l, acc), t, m.typ) then
          Outcome(Found, Spec(s.accs + [Accessor(id, i, acc.name)], s1.raw, s1.bitOffset), m.typ)
        else Outcome(NotFound, s1, m.typ)
      else
        PopPush(s, i, offset);
        MatchFrom(l, acc, t, id, i + 1, s)
  }

  /** The search in a type that need not be a composite. */
  ghost function MatchBelow(l: Btf, acc: Accessor, t: Btf, id: Id, s: Spec): (o: Outcome)
    requires Valid(l) && Valid(t) && NamedIn(l, acc) && id < |t.types| && |s.raw| <= MAX_LEN && s.bitOffset < U32
    ensures |s.raw| <= |o.spec.raw| <= MAX_LEN && o.spec.bitOffset < U32 && o.next < |t.types|
    decreases MAX_LEN - |s.raw|, 1, 0
  {
    var tid := Skip(t.types, id);
    if IsComposite(t.types[tid].info.kind) then MatchFrom(l, acc, t, tid, 0, s) else Outcome(NotFound, s, 0)
  }

  /** One round of the search. */
  lemma MatchStep(l: Btf, acc: Accessor, t: Btf, id: Id, i: nat, s: Spec)
    requires Valid(l) && Valid(t) && NamedIn(l, acc) && id < |t.types| && IsComposite(t.types[id].info.kind)
    requires |s.raw| < MAX_LEN && s.bitOffset < U32 && i < t.types[id].info.vlen
    ensures var m := MembersOf(t, id)[i];
            var offset := MemberOffset(t.types[id], m);
            var s1, o := Push(s, i, offset), MatchFrom(l, acc, t, id, i, s);
            && m.typ < |t.types| && Pop(s1, offset) == s
            && if Name(t, m.nameOff) == "" then
                 var o1 := MatchBelow(l, acc, t, m.typ, s1);
                 o == if o1.verdict != NotFound then o1 else MatchFrom(l, acc, t, id, i + 1, Pop(o1.spec, offset))
               else if Name(t, m.nameOff) == acc.name.value then
                 o == if Compatible(l, LocalField(l, acc), t, m.typ)
                      then Outcome(Found, Spec(s.accs + [Accessor(id, i, acc.name)], s1.raw, s1.bitOffset), m.typ)
                      else Outcome(NotFound, s1, m.typ)
               else o == MatchFrom(l, acc, t, id, i + 1, s)
  {
    MemberInside(t.types, id, i);
    PopPush(s, i, MemberOffset(t.types[id], MembersOf(t, id)[i]));
  }

  lemma MatchFull(l: Btf, acc: Accessor, t: Btf, id: Id, i: nat, s: Spec)
    requires Valid(l) && Valid(t) && NamedIn(l, acc) && id < |t.types| && IsComposite(t.types[id].info.kind)
    requires |s.raw| == MAX_LEN && s.bitOffset < U32 && i < t.types[id].info.vlen
    ensures MatchFrom(l, acc, t, id, i, s) == Outcome(TooDeep, s, 0)
  {
  }

  lemma MatchEnd(l: Btf, acc: Accessor, t: Btf, id: Id, s: Spec)
    requires Valid(l) && Valid(t) && NamedIn(l, acc) && id < |t.types| && IsComposite(t.types[id].info.kind)
    requires |s.raw| <= MAX_LEN && s.bitOffset < U32
    ensures MatchFrom(l, acc, t, id, t.types[id].info.vlen, s) == Outcome(NotFound, s, 0)
  {
  }

  /** The target spec, which matching pushes to and pops from. */
  class Target {
    var accs: seq<Accessor>
    var raw: seq<nat>
    var bitOffset: nat

    constructor ()
      ensures Value() == Spec([], [], 0)
    {
      accs, raw, bitOffset := [], [], 0;
    }

    function Value(): Spec
      reads this
    {
      Spec(accs, raw, bitOffset)
    }

    /** A field of the right name: it matches if the types fit. */
    method MatchField(l: Btf, localId: Id, t: Btf, targAcc: Accessor, targId: Id) returns (verdict: Verdict)
      requires Valid(l) && Valid(t) && localId < |l.types| && targId < |t.types|
      modifies this`accs
      ensures verdict == if Compatible(l, localId, t, targId) then Found else NotFound
      ensures accs == if verdict == Found then old(accs) + [targAcc] else old(accs)
    {
      hide Compatible;
      accs := accs + [targAcc];
      var compat := FieldsAreCompat(l, localId, t, targId);
      if !compat {
        accs := accs[..|accs| - 1];
      }
      verdict := if compat then Found else NotFound;
    }

    /** bpf_core_match_member. */
    method MatchMember(l: Btf, acc: Accessor, t: Btf, from: Id) returns (verdict: Verdict, next: Id)
      requires Valid(l) && Valid(t) && NamedIn(l, acc) && from < |t.types|
      requires |raw| <= MAX_LEN && bitOffset < U32
      modifies this
      ensures MatchBelow(l, acc, t, from, old(Value())) == Outcome(verdict, Value(), next)
      decreases MAX_LEN - |raw|
    {
      hide MatchFrom, Compatible, Name;
      var id := SkipModsAndTypedefs(t.types, from);
      var type_ := t.types[id];
      if !IsComposite(type_.info.kind) {
        return NotFound, 0;
      }
      var member := MembersOf(l, acc.typeId)[acc.idx];
      ghost var whole := MatchBelow(l, acc, t, from, Value());
      for i := 0 to type_.info.vlen
        invariant |old(raw)| <= |raw| <= MAX_LEN && bitOffset < U32
        invariant whole == MatchFrom(l, acc, t, id, i, Value())
      {
        var m := MembersOf(t, id)[i];
        MemberInside(t.types, id, i);
        var offset := MemberOffset(type_, m);
        if |raw| == MAX_LEN {
          MatchFull(l, acc, t, id, i, Value());
          return TooDeep, 0;
        }
        MatchStep(l, acc, t, id, i, Value());
        bitOffset := Plus(bitOffset, offset);
        raw := raw + [i];
        if Name(t, m.nameOff) == "" {
          verdict, next := MatchMember(l, acc, t, m.typ);
          if verdict != NotFound {
            return;
          }
        } else if Name(t, m.nameOff) == acc.name.value {
          verdict := MatchField(l, member.typ, t, Accessor(id, i, acc.name), m.typ);
          return verdict, m.typ;
        }
        bitOffset := Plus(bitOffset, 0 - offset as int);
        raw := raw[..|raw| - 1];
      }
      MatchEnd(l, acc, t, id, Value());
      return NotFound, 0;
    }
  }

  /* What a search finds, without a spec to push to. */

  /** A field below a composite: the steps to it, its bit offset, the composite
      that has it as a member, and its type. */
  datatype Hit = Hit(path: seq<nat>, offset: nat, owner: Id, next: Id)

  datatype Search = NoField | NoRoom | At(hit: Hit)

  /** The first field of that name among the members from number i on and in the
      anonymous members among them, in at most `room` steps. */
  ghost function FindFrom(t: Btf, id: Id, i: nat, name: string, room: nat): (f: Search)
    requires Valid(t) && id < |t.types| && IsComposite(t.types[id].info.kind)
    ensures f.At? ==> f.hit.path != [] && f.hit.next < |t.types| && i <= f.hit.path[0] && |f.hit.path| <= room
    decreases room, 0, t.types[id].info.vlen - i
  {
    if i >= t.types[id].info.vlen then NoField
    else if room == 0 then NoRoom
    else
      var m := MembersOf(t, id)[i];
      MemberInside(t.types, id, i);
      var offset := MemberOffset(t.types[id], m);
      if Name(t, m.nameOff) == "" then
        match FindBelow(t, m.typ, name, room - 1)
        case NoField => FindFrom(t, id, i + 1, name, room)
        case NoRoom => NoRoom
        case At(h) => At(Hit([i] + h.path, offset + h.offset, h.owner, h.next))
      else if Name(t, m.nameOff) == name then At(Hit([i], offset, id, m.typ))
      else FindFrom(t, id, i + 1, name, room)
  }

  ghost function FindBelow(t: Btf, id: Id, name: string, room: nat): (f: Search)
    requires Valid(t) && id < |t.types|
    ensures f.At? ==> f.hit.path != [] && f.hit.next < |t.types| && |f.hit.path| <= room
    decreases room, 1, 0
  {
    var tid := Skip(t.types, id);
    if IsComposite(t.types[tid].info.kind) then FindFrom(t, tid, 0, name, room) else NoField
  }

  /** How many fields of that name there are. */
  ghost function CountFrom(t: Btf, id: Id, i: nat, name: string, room: nat): (n: nat)
    requires Valid(t) && id < |t.types| && IsComposite(t.types[id].info.kind)
    decreases room, 0, t.types[id].info.vlen - i
  {
    if i >= t.types[id].info.vlen || room == 0 then 0
    else
      var m := MembersOf(t, id)[i];
      MemberInside(t.types, id, i);
      CountFrom(t, id, i + 1, name, room) +
      if Name(t, m.nameOff) == "" then CountBelow(t, m.typ, name, room - 1)
      else if Name(t, m.nameOff) == name then 1
      else 0
  }

  ghost function CountBelow(t: Btf, id: Id, name: string, room: nat): (n: nat)
    requires Valid(t) && id < |t.types|
    decreases room, 1, 0
  {
    var tid := Skip(t.types, id);
    if IsComposite(t.types[tid].info.kind) then CountFrom(t, tid, 0, name, room) else 0
  }

  lemma {:induction false} FewerInLessRoom(t: Btf, id: Id, i: nat, name: string, room: nat, more: nat)
    requires Valid(t) && id < |t.types| && IsComposite(t.types[id].info.kind) && room <= more
    ensures CountFrom(t, id, i, name, room) <= CountFrom(t, id, i, name, more)
    decreases room, t.types[id].info.vlen - i
  {
    if i < t.types[id].info.vlen && room > 0 {
      var m := MembersOf(t, id)[i];
      MemberInside(t.types, id, i);
      FewerInLessRoom(t, id, i + 1, name, room, more);
      var tid := Skip(t.types, m.typ);
      if Name(t, m.nameOff) == "" && IsComposite(t.types[tid].info.kind) {
        FewerInLessRoom(t, tid, 0, name, room - 1, more - 1);
      }
    }
  }

  /** Where no field has the name, nothing is found. */
  lemma {:induction false} NoneToFind(l: Btf, acc: Accessor, t: Btf, id: Id, i: nat, s: Spec, room: nat)
    requires Valid(l) && Valid(t) && NamedIn(l, acc) && id < |t.types| && IsComposite(t.types[id].info.kind)
    requires |s.raw| <= MAX_LEN && s.bitOffset < U32 && room >= MAX_LEN - |s.raw|
    requires CountFrom(t, id, i, acc.name.value, room) == 0
    ensures MatchFrom(l, acc, t, id, i, s).verdict != Found
    decreases room, t.types[id].info.vlen - i
  {
    hide MatchFrom, Compatible, Name;
    if i >= t.types[id].info.vlen {
      AtEnd(l, acc, t, id, i, s);
    } else if |s.raw| == MAX_LEN {
      MatchFull(l, acc, t, id, i, s);
    } else {
      var m := MembersOf(t, id)[i];
      MatchStep(l, acc, t, id, i, s);
      var offset := MemberOffset(t.types[id], m);
      var s1 := Push(s, i, offset);
      var tid := Skip(t.types, m.typ);
      if Name(t, m.nameOff) != "" {
        NoneToFind(l, acc, t, id, i + 1, s, room);
      } else {
        if IsComposite(t.types[tid].info.kind) {
          NoneToFind(l, acc, t, tid, 0, s1, room - 1);
        }
        NoneToFind(l, acc, t, id, i + 1, Pop(MatchBelow(l, acc, t, m.typ, s1).spec, offset), room);
      }
    }
  }

  lemma AtEnd(l: Btf, acc: Accessor, t: Btf, id: Id, i: nat, s: Spec)
    requires Valid(l) && Valid(t) && NamedIn(l, acc) && id < |t.types| && IsComposite(t.types[id].info.kind)
    requires |s.raw| <= MAX_LEN && s.bitOffset < U32 && i >= t.types[id].info.vlen
    ensures MatchFrom(l, acc, t, id, i, s) == Outcome(NotFound, s, 0)
    ensures FindFrom(t, id, i, acc.name.value, MAX_LEN - |s.raw|) == NoField
  {
  }

  /** What is found is counted. */
  lemma {:induction false} FoundCounts(t: Btf, id: Id, i: nat, name: string, room: nat)
    requires Valid(t) && id < |t.types| && IsComposite(t.types[id].info.kind)
    ensures FindFrom(t, id, i, name, room).At? ==> CountFrom(t, id, i, name, room) >= 1
    decreases room, t.types[id].info.vlen - i
  {
    if i < t.types[id].info.vlen && room > 0 {
      var m := MembersOf(t, id)[i];
      MemberInside(t.types, id, i);
      FoundCounts(t, id, i + 1, name, room);
      var tid := Skip(t.types, m.typ);
      if IsComposite(t.types[tid].info.kind) {
        FoundCounts(t, tid, 0, name, room - 1);
      }
      assert FindBelow(t, m.typ, name, room - 1).At? ==> CountBelow(t, m.typ, name, room - 1) >= 1;
    }
  }

  /** One round of the search for the first hit. */
  lemma FindStep(t: Btf, id: Id, i: nat, name: string, room: nat)
    requires Valid(t) && id < |t.types| && IsComposite(t.types[id].info.kind)
    ensures i >= t.types[id].info.vlen || room == 0 ==> !FindFrom(t, id, i, name, room).At?
    ensures i >= t.types[id].info.vlen ==> FindFrom(t, id, i, name, room).NoField?
    ensures i < t.types[id].info.vlen && room > 0 ==>
              var m := MembersOf(t, id)[i];
              var f, offset := FindFrom(t, id, i, name, room), MemberOffset(t.types[id], m);
              && m.typ < |t.types|
              && if Name(t, m.nameOff) == "" then
                   match FindBelow(t, m.typ, name, room - 1)
                   case NoField => f == FindFrom(t, id, i + 1, name, room)
                   case NoRoom => f == NoRoom
                   case At(h) => f == At(Hit([i] + h.path, offset + h.offset, h.owner, h.next))
                 else if Name(t, m.nameOff) == name then f == At(Hit([i], offset, id, m.typ))
                 else f == FindFrom(t, id, i + 1, name, room)
  {
    if i < t.types[id].info.vlen {
      MemberInside(t.types, id, i);
    }
  }

  lemma AnonymousCounts(t: Btf, id: Id, i: nat, name: string, room: nat)
    requires Valid(t) && id < |t.types| && IsComposite(t.types[id].info.kind) && i < t.types[id].info.vlen && room > 0
    requires Name(t, MembersOf(t, id)[i].nameOff) == "" && MembersOf(t, id)[i].typ < |t.types|
    ensures CountFrom(t, id, i, name, room) ==
              CountFrom(t, id, i + 1, name, room) + CountBelow(t, MembersOf(t, id)[i].typ, name, room - 1)
    ensures FindBelow(t, MembersOf(t, id)[i].typ, name, room - 1).At? ==>
              CountBelow(t, MembersOf(t, id)[i].typ, name, room - 1) >= 1
  {
    var tid := Skip(t.types, MembersOf(t, id)[i].typ);
    if IsComposite(t.types[tid].info.kind) {
      FoundCounts(t, tid, 0, name, room - 1);
    }
  }

  /** A search whose first hit fits ends with it: its steps pushed, and its accessor. */
  ghost function HitSpec(acc: Accessor, s: Spec, h: Hit): Spec
    requires h.path != []
  {
    Spec(s.accs + [Accessor(h.owner, h.path[|h.path| - 1], acc.name)], s.raw + h.path, Plus(s.bitOffset, h.offset))
  }

  /** A search ends as the first hit says. */
  ghost predicate EndsAs(l: Btf, acc: Accessor, t: Btf, s: Spec, f: Search, o: Outcome)
    requires Valid(l) && Valid(t) && NamedIn(l, acc)
  {
    match f
    case NoField => o == Outcome(NotFound, s, 0)
    case NoRoom => o.verdict == TooDeep
    case At(h) =>
      && h.next < |t.types| && h.path != []
      && (Compatible(l, LocalField(l, acc), t, h.next) ==> o == Outcome(Found, HitSpec(acc, s, h), h.next))
  }

  /** If there is no field of the name the search finds nothing and leaves the spec
      as it was, and if the first one fits it ends there. */
  lemma {:induction false} MatchEndsAs(l: Btf, acc: Accessor, t: Btf, id: Id, i: nat, s: Spec)
    requires Valid(l) && Valid(t) && NamedIn(l, acc) && id < |t.types| && IsComposite(t.types[id].info.kind)
    requires |s.raw| <= MAX_LEN && s.bitOffset < U32
    ensures EndsAs(l, acc, t, s, FindFrom(t, id, i, acc.name.value, MAX_LEN - |s.raw|), MatchFrom(l, acc, t, id, i, s))
    decreases MAX_LEN - |s.raw|, t.types[id].info.vlen - i
  {
    hide MatchFrom, MatchBelow, Compatible, Name;
    var n := t.types[id].info.vlen;
    if i >= n {
      AtEnd(l, acc, t, id, i, s);
    } else if |s.raw| == MAX_LEN {
      MatchFull(l, acc, t, id, i, s);
      assert FindFrom(t, id, i, acc.name.value, 0) == NoRoom;
    } else {
      var m := MembersOf(t, id)[i];
      MatchStep(l, acc, t, id, i, s);
      if Name(t, m.nameOff) == "" {
        MatchBelowEndsAs(l, acc, t, m.typ, Push(s, i, MemberOffset(t.types[id], m)));
        AnonymousEndsAs(l, acc, t, id, i, s);
        if FindBelow(t, m.typ, acc.name.value, MAX_LEN - |s.raw| - 1).NoField? {
          MatchEndsAs(l, acc, t, id, i + 1, s);
        }
      } else if Name(t, m.nameOff) != acc.name.value {
        MatchEndsAs(l, acc, t, id, i + 1, s);
      }
    }
  }

  /** The round at an anonymous member, once the search in it has ended. */
  lemma AnonymousEndsAs(l: Btf, acc: Accessor, t: Btf, id: Id, i: nat, s: Spec)
    requires Valid(l) && Valid(t) && NamedIn(l, acc) && id < |t.types| && IsComposite(t.types[id].info.kind)
    requires |s.raw| < MAX_LEN && s.bitOffset < U32 && i < t.types[id].info.vlen
    requires var m := MembersOf(t, id)[i];
             && Name(t, m.nameOff) == "" && m.typ < |t.types|
             && var s1 := Push(s, i, MemberOffset(t.types[id], m));
                EndsAs(l, acc, t, s1, FindBelow(t, m.typ, acc.name.value, MAX_LEN - |s.raw| - 1),
                       MatchBelow(l, acc, t, m.typ, s1))
    ensures var m, room := MembersOf(t, id)[i], MAX_LEN - |s.raw|;
            var f, o := FindFrom(t, id, i, acc.name.value, room), MatchFrom(l, acc, t, id, i, s);
            if FindBelow(t, m.typ, acc.name.value, room - 1).NoField? then
              f == FindFrom(t, id, i + 1, acc.name.value, room) && o == MatchFrom(l, acc, t, id, i + 1, s)
            else EndsAs(l, acc, t, s, f, o)
  {
    hide MatchFrom, MatchBelow, FindFrom, FindBelow, Compatible, Name;
    var m, room, name := MembersOf(t, id)[i], MAX_LEN - |s.raw|, acc.name.value;
    FindStep(t, id, i, name, room);
    MatchStep(l, acc, t, id, i, s);
    var f := FindBelow(t, m.typ, name, room - 1);
    if f.At? {
      assert s.raw + [i] + f.hit.path == s.raw + ([i] + f.hit.path);
    }
  }

  lemma MatchBelowEndsAs(l: Btf, acc: Accessor, t: Btf, id: Id, s: Spec)
    requires Valid(l) && Valid(t) && NamedIn(l, acc) && id < |t.types|
    requires |s.raw| <= MAX_LEN && s.bitOffset < U32
    ensures EndsAs(l, acc, t, s, FindBelow(t, id, acc.name.value, MAX_LEN - |s.raw|), MatchBelow(l, acc, t, id, s))
    decreases MAX_LEN - |s.raw|, t.types[Skip(t.types, id)].info.vlen + 1
  {
    var tid := Skip(t.types, id);
    if IsComposite(t.types[tid].info.kind) {
      MatchEndsAs(l, acc, t, tid, 0, s);
    }
  }

  /** A member of a type. */
  ghost predicate IsMember(t: Btf, owner: Id, idx: nat, typ: Id)
    requires Valid(t)
  {
    && owner < |t.types| && IsComposite(t.types[owner].info.kind) && idx < t.types[owner].info.vlen
    && MembersOf(t, owner)[idx].typ == typ
  }

  /** What a search leaves: accessors as before, or one more, of a member that fits. */
  ghost predicate LeavesAccs(l: Btf, acc: Accessor, t: Btf, s: Spec, o: Outcome)
    requires Valid(l) && Valid(t) && NamedIn(l, acc)
  {
    if o.verdict == Found then
      && |o.spec.accs| == |s.accs| + 1 && o.spec.accs[..|s.accs|] == s.accs && o.next < |t.types|
      && IsMember(t, o.spec.accs[|s.accs|].typeId, o.spec.accs[|s.accs|].idx, o.next)
      && Compatible(l, LocalField(l, acc), t, o.next)
    else o.spec.accs == s.accs
  }

  lemma {:induction false} MatchLeavesAccs(l: Btf, acc: Accessor, t: Btf, id: Id, i: nat, s: Spec)
    requires Valid(l) && Valid(t) && NamedIn(l, acc) && id < |t.types| && IsComposite(t.types[id].info.kind)
    requires |s.raw| <= MAX_LEN && s.bitOffset < U32
    ensures LeavesAccs(l, acc, t, s, MatchFrom(l, acc, t, id, i, s))
    decreases MAX_LEN - |s.raw|, t.types[id].info.vlen - i
  {
    hide MatchFrom, MatchBelow, Compatible, Name;
    if i >= t.types[id].info.vlen {
      AtEnd(l, acc, t, id, i, s);
    } else if |s.raw| == MAX_LEN {
      MatchFull(l, acc, t, id, i, s);
    } else {
      var m := MembersOf(t, id)[i];
      MatchStep(l, acc, t, id, i, s);
      if Name(t, m.nameOff) == "" {
        AnonymousLeavesAccs(l, acc, t, id, i, s);
      } else if Name(t, m.nameOff) != acc.name.value {
        MatchLeavesAccs(l, acc, t, id, i + 1, s);
      }
    }
  }

  lemma {:induction false} AnonymousLeavesAccs(l: Btf, acc: Accessor, t: Btf, id: Id, i: nat, s: Spec)
    requires Valid(l) && Valid(t) && NamedIn(l, acc) && id < |t.types| && IsComposite(t.types[id].info.kind)
    requires |s.raw| < MAX_LEN && s.bitOffset < U32 && i < t.types[id].info.vlen
    requires MembersOf(t, id)[i].typ < |t.types| && Name(t, MembersOf(t, id)[i].nameOff) == ""
    ensures LeavesAccs(l, acc, t, s, MatchFrom(l, acc, t, id, i, s))
    decreases MAX_LEN - |s.raw|, t.types[id].info.vlen - i, 0
  {
    MatchStep(l, acc, t, id, i, s);
    hide MatchFrom, MatchBelow, Compatible, Name, Valid, NamedIn, LocalField, IsMember;
    var m := MembersOf(t, id)[i];
    var offset := MemberOffset(t.types[id], m);
    var s1 := Push(s, i, offset);
    var tid := Skip(t.types, m.typ);
    var o := MatchBelow(l, acc, t, m.typ, s1);
    BelowIs(l, acc, t, m.typ, s1);
    if IsComposite(t.types[tid].info.kind) {
      MatchLeavesAccs(l, acc, t, tid, 0, s1);
    }
    if o.verdict == NotFound {
      MatchLeavesAccs(l, acc, t, id, i + 1, Pop(o.spec, offset));
    }
  }

  lemma BelowIs(l: Btf, acc: Accessor, t: Btf, id: Id, s: Spec)
    requires Valid(l) && Valid(t) && NamedIn(l, acc) && id < |t.types| && |s.raw| <= MAX_LEN && s.bitOffset < U32
    ensures var tid, o := Skip(t.types, id), MatchBelow(l, acc, t, id, s);
            o == if IsComposite(t.types[tid].info.kind) then MatchFrom(l, acc, t, tid, 0, s)
                 else Outcome(NotFound, s, 0)
  {
  }

  lemma {:induction false} HitIsMember(t: Btf, id: Id, i: nat, name: string, room: nat)
    requires Valid(t) && id < |t.types| && IsComposite(t.types[id].info.kind)
    ensures var f := FindFrom(t, id, i, name, room);
            f.At? ==> IsMember(t, f.hit.owner, f.hit.path[|f.hit.path| - 1], f.hit.next)
    decreases room, t.types[id].info.vlen - i
  {
    hide FindFrom, Name;
    FindStep(t, id, i, name, room);
    if i < t.types[id].info.vlen && room > 0 {
      var m := MembersOf(t, id)[i];
      HitIsMember(t, id, i + 1, name, room);
      var tid := Skip(t.types, m.typ);
      if IsComposite(t.types[tid].info.kind) {
        HitIsMember(t, tid, 0, name, room - 1);
      }
    }
  }

  /** The search through a type, entirely: without a field of the name it leaves
      the spec alone, without room it gives up, and otherwise it ends with the
      first field of the name exactly if that one fits. Whether it fits is known
      beforehand. */
  lemma MatchIsFind(l: Btf, acc: Accessor, t: Btf, id: Id, s: Spec)
    requires Valid(l) && Valid(t) && NamedIn(l, acc) && id < |t.types|
    requires |s.raw| <= MAX_LEN && s.bitOffset < U32
    ensures var f, o := FindBelow(t, id, acc.name.value, MAX_LEN - |s.raw|), MatchBelow(l, acc, t, id, s);
            match f
            case NoField => o == Outcome(NotFound, s, 0)
            case NoRoom => o.verdict == TooDeep
            case At(h) =>
              Compatible(l, LocalField(l, acc), t, h.next) <==> o.verdict == Found && o.spec == HitSpec(acc, s, h)
  {
    hide MatchFrom, FindFrom, Compatible;
    var tid := Skip(t.types, id);
    MatchBelowEndsAs(l, acc, t, id, s);
    if IsComposite(t.types[tid].info.kind) {
      MatchLeavesAccs(l, acc, t, tid, 0, s);
      HitIsMember(t, tid, 0, acc.name.value, MAX_LEN - |s.raw|);
    }
  }

  /** If the first field of the name does not fit, and no other has the name, there
      is no match. */
  lemma {:induction false} UniqueOrNothing(l: Btf, acc: Accessor, t: Btf, id: Id, i: nat, s: Spec)
    requires Valid(l) && Valid(t) && NamedIn(l, acc) && id < |t.types| && IsComposite(t.types[id].info.kind)
    requires |s.raw| <= MAX_LEN && s.bitOffset < U32
    requires CountFrom(t, id, i, acc.name.value, MAX_LEN - |s.raw|) <= 1
    requires var f := FindFrom(t, id, i, acc.name.value, MAX_LEN - |s.raw|);
             f.At? && !Compatible(l, LocalField(l, acc), t, f.hit.next)
    ensures MatchFrom(l, acc, t, id, i, s).verdict != Found
    decreases MAX_LEN - |s.raw|, t.types[id].info.vlen - i
  {
    hide MatchFrom, MatchBelow, FindFrom, FindBelow, CountFrom, CountBelow, Compatible, Name;
    var room, name := MAX_LEN - |s.raw|, acc.name.value;
    FindStep(t, id, i, name, room);
    var m := MembersOf(t, id)[i];
    MatchStep(l, acc, t, id, i, s);
    if Name(t, m.nameOff) == "" {
      var offset := MemberOffset(t.types[id], m);
      var s1 := Push(s, i, offset);
      AnonymousCounts(t, id, i, name, room);
      if FindBelow(t, m.typ, name, room - 1).NoField? {
        MatchBelowEndsAs(l, acc, t, m.typ, s1);
        assert Pop(s1, offset) == s;
        UniqueOrNothing(l, acc, t, id, i + 1, s);
      } else {
        UniqueOrNothingBelow(l, acc, t, m.typ, s1);
        NoneToFind(l, acc, t, id, i + 1, Pop(MatchBelow(l, acc, t, m.typ, s1).spec, offset), room);
      }
    } else if Name(t, m.nameOff) != name {
      OthersCount(t, id, i, name, room);
      UniqueOrNothing(l, acc, t, id, i + 1, s);
    }
  }

  lemma OthersCount(t: Btf, id: Id, i: nat, name: string, room: nat)
    requires Valid(t) && id < |t.types| && IsComposite(t.types[id].info.kind) && i < t.types[id].info.vlen && room > 0
    ensures CountFrom(t, id, i + 1, name, room) <= CountFrom(t, id, i, name, room)
  {
    MemberInside(t.types, id, i);
  }

  lemma UniqueOrNothingBelow(l: Btf, acc: Accessor, t: Btf, id: Id, s: Spec)
    requires Valid(l) && Valid(t) && NamedIn(l, acc) && id < |t.types|
    requires |s.raw| <= MAX_LEN && s.bitOffset < U32
    requires CountBelow(t, id, acc.name.value, MAX_LEN - |s.raw|) <= 1
    requires var f := FindBelow(t, id, acc.name.value, MAX_LEN - |s.raw|);
             f.At? && !Compatible(l, LocalField(l, acc), t, f.hit.next)
    ensures MatchBelow(l, acc, t, id, s).verdict != Found
    decreases MAX_LEN - |s.raw|, t.types[Skip(t.types, id)].info.vlen + 1
  {
    UniqueOrNothing(l, acc, t, Skip(t.types, id), 0, s);
  }

  /* Whole specs. */

  /** Accessors as parsing makes them. */
  ghost predicate LocalSpec(l: Btf, accs: seq<Accessor>)
    requires Valid(l)
  {
    forall k :: 0 <= k < |accs| ==> accs[k].name == None || NamedIn(l, accs[k])
  }

  const INT_MAX: nat := 0x7fff_ffff

  /** The loop of bpf_core_spec_match from accessor number i on. An element's
      size is an int there, and negative from 2 GiB on. */
  ghost function SpecMatchFrom(l: Btf, accs: seq<Accessor>, i: nat, t: Btf, from: Id, s: Spec): (o: Outcome)
    requires Valid(l) && Valid(t) && LocalSpec(l, accs) && from < |t.types| && |s.raw| <= MAX_LEN && s.bitOffset < U32
    ensures |o.spec.raw| <= MAX_LEN && o.spec.bitOffset < U32
    decreases |accs| - i
  {
    if i >= |accs| then Outcome(Found, s, from)
    else
      var tid := Skip(t.types, from);
      InnerInside(t.types, tid);
      var acc := accs[i];
      if acc.name.Some? then
        var o := MatchBelow(l, acc, t, tid, s);
        if o.verdict != Found then o else SpecMatchFrom(l, accs, i + 1, t, o.next, o.spec)
      else if i > 0 && (t.types[tid].info.kind != Array || acc.idx >= t.types[tid].payload.nelems) then
        Outcome(NotFound, s, 0)
      else if |s.raw| == MAX_LEN then Outcome(TooDeep, s, 0)
      else
        var eid := if i > 0 then Skip(t.types, t.types[tid].payload.elem) else tid;
        match ResolvedSize(t.types, eid)
        case Ok(sz) =>
          if sz > INT_MAX then Outcome(Bad, s, 0)
          else SpecMatchFrom(l, accs, i + 1, t, eid,
                             Spec(s.accs + [Accessor(eid, acc.idx, None)], s.raw + [acc.idx],
                                  Plus(s.bitOffset, Span(acc.idx, sz))))
        case Invalid => Outcome(Bad, s, 0)
        case TooBig => Outcome(TooDeep, s, 0)
  }

  /** bpf_core_spec_match: the target spec starts empty and is filled on the way. */
  method SpecMatch(l: Btf, local: seq<Accessor>, t: Btf, targId: Id) returns (verdict: Verdict, spec: Target)
    requires Valid(l) && Valid(t) && LocalSpec(l, local) && targId < |t.types|
    ensures fresh(spec) && verdict == SpecMatchFrom(l, local, 0, t, targId, Spec([], [], 0)).verdict
    ensures verdict == Found ==> spec.Value() == SpecMatchFrom(l, local, 0, t, targId, Spec([], [], 0)).spec
  {
    hide MatchBelow, NamedIn, ResolvedSize, Skip;
    spec := new Target();
    var id: Id := targId;
    for i := 0 to |local|
      modifies spec
      invariant id < |t.types| && |spec.raw| <= MAX_LEN && spec.bitOffset < U32
      invariant SpecMatchFrom(l, local, 0, t, targId, Spec([], [], 0)) ==
                  SpecMatchFrom(l, local, i, t, id, spec.Value())
    {
      var tid := SkipModsAndTypedefs(t.types, id);
      InnerInside(t.types, tid);
      var acc := local[i];
      if acc.name.Some? {
        var matched, next := spec.MatchMember(l, acc, t, tid);
        if matched != Found {
          return matched, spec;
        }
        id := next;
      } else {
        if i > 0 {
          if t.types[tid].info.kind != Array || acc.idx >= t.types[tid].payload.nelems {
            return NotFound, spec;
          }
          tid := SkipModsAndTypedefs(t.types, t.types[tid].payload.elem);
        }
        if |spec.raw| == MAX_LEN {
          return TooDeep, spec;
        }
        spec.accs := spec.accs + [Accessor(tid, acc.idx, None)];
        spec.raw := spec.raw + [acc.idx];
        var sz := ResolveSize(t.types, tid);
        match sz
        case Invalid => return Bad, spec;
        case TooBig => return TooDeep, spec;
        case Ok(size) =>
          if size > INT_MAX {
            return Bad, spec;
          }
          spec.bitOffset := Plus(spec.bitOffset, Span(acc.idx, size));
          id := tid;
      }
    }
    verdict := Found;
  }

  /* What a successful match means. */

  /** A member without a name has name offset 0. */
  ghost predicate NamesOk(b: Btf)
    requires Valid(b)
  {
    forall x: Id, i: nat :: x < |b.types| && IsComposite(b.types[x].info.kind) && i < b.types[x].info.vlen ==>
                              (MembersOf(b, x)[i].nameOff != 0 ==> Name(b, MembersOf(b, x)[i].nameOff) != "")
  }

  /** No name occurs twice in a composite and its anonymous members. */
  ghost predicate UniqueNames(b: Btf)
    requires Valid(b)
  {
    forall x: Id, name: string ::
      x < |b.types| && IsComposite(b.types[x].info.kind) ==> CountFrom(b, x, 0, name, MAX_LEN) <= 1
  }

  lemma NameAtZero(b: Btf)
    requires Valid(b)
    ensures Name(b, 0) == ""
  {
  }

  /** A walk of at least one step may start before modifiers and typedefs. */
  lemma WalkSkips(b: Btf, id: Id, steps: seq<nat>)
    requires Valid(b) && id < |b.types| && steps != []
    ensures Walk(b, id, steps) == Walk(b, Skip(b.types, id), steps)
  {
    SkipTwice(b.types, id);
  }

  /** A step into a member. */
  lemma MemberStep(b: Btf, id: Id, i: nat)
    requires Valid(b) && NamesOk(b) && id < |b.types| && IsComposite(b.types[id].info.kind) && i < b.types[id].info.vlen
    ensures var m := MembersOf(b, id)[i];
            var name := Name(b, m.nameOff);
            && m.typ < |b.types|
            && Step(b, id, i) ==
                 Ok(Walked(if name == "" then [] else [Accessor(id, i, Some(name))],
                           MemberOffset(b.types[id], m), m.typ))
  {
    MemberInside(b.types, id, i);
    NameAtZero(b);
    assert Skip(b.types, id) == id;
  }

  /** Walking along a hit passes its offset and its accessor, and arrives at its type. */
  lemma {:induction false} HitWalks(t: Btf, id: Id, i: nat, name: string, room: nat, rest: seq<nat>)
    requires Valid(t) && NamesOk(t) && id < |t.types| && IsComposite(t.types[id].info.kind) && name != ""
    requires FindFrom(t, id, i, name, room).At?
    ensures var h := FindFrom(t, id, i, name, room).hit;
            Walk(t, id, h.path + rest) ==
              Behind([Accessor(h.owner, h.path[|h.path| - 1], Some(name))], h.offset, Walk(t, h.next, rest))
    decreases room, t.types[id].info.vlen - i
  {
    hide Step, Behind, FindFrom, Name;
    FindStep(t, id, i, name, room);
    var m, h := MembersOf(t, id)[i], FindFrom(t, id, i, name, room).hit;
    MemberStep(t, id, i);
    if Name(t, m.nameOff) == "" {
      var f := FindBelow(t, m.typ, name, room - 1);
      if f.At? {
        HitWalks(t, Skip(t.types, m.typ), 0, name, room - 1, rest);
        AnonymousWalk(t, id, i, f.hit, name, rest);
      } else {
        HitWalks(t, id, i + 1, name, room, rest);
      }
    } else if Name(t, m.nameOff) == name {
      assert (h.path + rest)[1..] == rest;
    } else {
      HitWalks(t, id, i + 1, name, room, rest);
    }
  }

  lemma AnonymousWalk(t: Btf, id: Id, i: nat, h: Hit, name: string, rest: seq<nat>)
    requires Valid(t) && NamesOk(t) && id < |t.types| && IsComposite(t.types[id].info.kind) && i < t.types[id].info.vlen
    requires Name(t, MembersOf(t, id)[i].nameOff) == "" && MembersOf(t, id)[i].typ < |t.types| && h.path != []
    requires h.next < |t.types|
    requires Walk(t, Skip(t.types, MembersOf(t, id)[i].typ), h.path + rest) ==
               Behind([Accessor(h.owner, h.path[|h.path| - 1], Some(name))], h.offset, Walk(t, h.next, rest))
    ensures Walk(t, id, [i] + h.path + rest) ==
              Behind([Accessor(h.owner, h.path[|h.path| - 1], Some(name))],
                     MemberOffset(t.types[id], MembersOf(t, id)[i]) + h.offset, Walk(t, h.next, rest))
  {
    hide Step, Skip, Behind;
    var m, accs := MembersOf(t, id)[i], [Accessor(h.owner, h.path[|h.path| - 1], Some(name))];
    MemberStep(t, id, i);
    WalkSkips(t, m.typ, h.path + rest);
    assert ([i] + h.path + rest)[1..] == h.path + rest;
    BehindBehind([], MemberOffset(t.types[id], m), accs, h.offset, Walk(t, h.next, rest));
    assert [] + accs == accs;
  }

  /** The same names, and the same array indices. */
  ghost predicate SameAccess(a: seq<Accessor>, c: seq<Accessor>) {
    |a| == |c| && forall k :: 0 <= k < |a| ==> a[k].name == c[k].name && (a[k].name == None ==> a[k].idx == c[k].idx)
  }

  /** The steps a match adds are a walk along the local accessors. */
  ghost predicate AddsWalk(accs: seq<Accessor>, t: Btf, from: Id, s: Spec, r: Spec)
    requires Valid(t) && from < |t.types|
  {
    && |s.raw| <= |r.raw| && r.raw[..|s.raw|] == s.raw
    && var w := Walk(t, from, r.raw[|s.raw|..]);
       && w.Ok? && r.accs == s.accs + w.value.accs && r.bitOffset == Plus(s.bitOffset, w.value.offset)
       && SameAccess(accs, w.value.accs)
  }

  /** The first field of an accessor's name fits, or there is none to be found. */
  ghost predicate FirstFits(l: Btf, acc: Accessor, t: Btf, id: Id, room: nat)
    requires Valid(l) && Valid(t) && NamedIn(l, acc) && id < |t.types|
  {
    var f := FindBelow(t, id, acc.name.value, room);
    f.At? ==> Compatible(l, LocalField(l, acc), t, f.hit.next)
  }

  /** One field matched: its steps are the hit's. */
  lemma FieldMatched(l: Btf, acc: Accessor, t: Btf, tid: Id, s: Spec)
    requires Valid(l) && Valid(t) && NamedIn(l, acc) && tid < |t.types|
    requires |s.raw| <= MAX_LEN && s.bitOffset < U32 && Skip(t.types, tid) == tid
    requires FirstFits(l, acc, t, tid, MAX_LEN - |s.raw|) && MatchBelow(l, acc, t, tid, s).verdict == Found
    ensures IsComposite(t.types[tid].info.kind)
    ensures var f, o := FindFrom(t, tid, 0, acc.name.value, MAX_LEN - |s.raw|), MatchBelow(l, acc, t, tid, s);
            && f.At? && f == FindBelow(t, tid, acc.name.value, MAX_LEN - |s.raw|)
            && o.spec == HitSpec(acc, s, f.hit) && o.next == f.hit.next
  {
    hide Compatible, MatchFrom, FindFrom;
    assert IsComposite(t.types[tid].info.kind);
    MatchBelowEndsAs(l, acc, t, tid, s);
  }

  /** The steps of a matched field, and whatever follows them, are a walk. */
  lemma FieldWalks(l: Btf, acc: Accessor, t: Btf, from: Id, s: Spec, raw: seq<nat>) returns (h: Hit)
    requires Valid(l) && Valid(t) && NamesOk(t) && NamedIn(l, acc) && from < |t.types|
    requires |s.raw| <= MAX_LEN && s.bitOffset < U32 && FirstFits(l, acc, t, Skip(t.types, from), MAX_LEN - |s.raw|)
    requires var o := MatchBelow(l, acc, t, Skip(t.types, from), s);
             o.verdict == Found && |o.spec.raw| <= |raw| && raw[..|o.spec.raw|] == o.spec.raw
    ensures var o := MatchBelow(l, acc, t, Skip(t.types, from), s);
            && h.path != [] && o.spec == HitSpec(acc, s, h) && o.next == h.next < |t.types|
            && |s.raw| <= |raw| && raw[..|s.raw|] == s.raw
            && Walk(t, from, raw[|s.raw|..]) ==
                 Behind([Accessor(h.owner, h.path[|h.path| - 1], acc.name)], h.offset,
                        Walk(t, h.next, raw[|o.spec.raw|..]))
  {
    hide MatchBelow, FindFrom, FindBelow, Compatible, Walk, NamesOk, Skip, FirstFits, Name, Rank, IsSkipped, Behind;
    var tid := Skip(t.types, from);
    SkipTwice(t.types, from);
    FieldMatched(l, acc, t, tid, s);
    h := FindFrom(t, tid, 0, acc.name.value, MAX_LEN - |s.raw|).hit;
    var rest := raw[|s.raw| + |h.path|..];
    HitWalks(t, tid, 0, acc.name.value, MAX_LEN - |s.raw|, rest);
    SplitAfter(s.raw, h.path, raw);
    WalkSkips(t, from, h.path + rest);
  }

  /** What one accessor adds: steps, a walk along them, and where it arrives. */
  lemma FieldAdds(l: Btf, acc: Accessor, t: Btf, from: Id, s: Spec, accs: seq<Accessor>, r: Spec)
    requires Valid(l) && Valid(t) && NamesOk(t) && NamedIn(l, acc) && from < |t.types|
    requires |s.raw| <= MAX_LEN && s.bitOffset < U32 && FirstFits(l, acc, t, Skip(t.types, from), MAX_LEN - |s.raw|)
    requires var o := MatchBelow(l, acc, t, Skip(t.types, from), s);
             o.verdict == Found && AddsWalk(accs, t, o.next, o.spec, r)
    ensures AddsWalk([acc] + accs, t, from, s, r)
  {
    var o := MatchBelow(l, acc, t, Skip(t.types, from), s);
    hide MatchBelow, Walk, SameAccess, NamesOk, NamedIn, Valid, Skip, FirstFits, Behind, Plus;
    var h := FieldWalks(l, acc, t, from, s, r.raw);
    JoinWalks(acc, accs, Accessor(h.owner, h.path[|h.path| - 1], acc.name), s, h.offset, o.spec, r,
              Walk(t, h.next, r.raw[|o.spec.raw|..]));
  }

  lemma SplitAfter(a: seq<nat>, p: seq<nat>, r: seq<nat>)
    requires |a| + |p| <= |r| && r[..|a| + |p|] == a + p
    ensures r[..|a|] == a && r[|a|..] == p + r[|a| + |p|..]
  {
    assert r == r[..|a| + |p|] + r[|a| + |p|..];
    assert a + p + r[|a| + |p|..] == a + (p + r[|a| + |p|..]);
  }

  /** Accessors and offsets of a step and of what follows add up. */
  lemma JoinWalks(acc: Accessor, accs: seq<Accessor>, found: Accessor, s: Spec, offset: nat, s1: Spec, r: Spec,
                  w: Result<Walked>)
    requires w.Ok? && s1.accs == s.accs + [found] && s1.bitOffset == Plus(s.bitOffset, offset)
    requires r.accs == s1.accs + w.value.accs && r.bitOffset == Plus(s1.bitOffset, w.value.offset)
    requires found.name == acc.name && (acc.name == None ==> found.idx == acc.idx) && SameAccess(accs, w.value.accs)
    ensures var b := Behind([found], offset, w);
            && b.Ok? && r.accs == s.accs + b.value.accs && r.bitOffset == Plus(s.bitOffset, b.value.offset)
            && SameAccess([acc] + accs, b.value.accs)
  {
    assert s.accs + [found] + w.value.accs == s.accs + ([found] + w.value.accs);
  }

  ghost function ElementType(b: Btf, from: Id): (eid: Id)
    requires Valid(b) && from < |b.types| && b.types[Skip(b.types, from)].info.kind == Array
    ensures eid < |b.types|
  {
    InnerInside(b.types, Skip(b.types, from));
    Skip(b.types, b.types[Skip(b.types, from)].payload.elem)
  }

  /** A step into an array element. */
  lemma ElementStep(b: Btf, from: Id, i: nat)
    requires Valid(b) && from < |b.types|
    requires var tid := Skip(b.types, from); b.types[tid].info.kind == Array && i < b.types[tid].payload.nelems
    ensures var eid := ElementType(b, from);
            ResolvedSize(b.types, eid).Ok? ==>
              Step(b, from, i) == Ok(Walked([Accessor(eid, i, None)], Span(i, ResolvedSize(b.types, eid).value), eid))
  {
  }

  lemma ElementAdds(acc: Accessor, t: Btf, from: Id, s: Spec, accs: seq<Accessor>, sz: nat, r: Spec)
    requires Valid(t) && from < |t.types| && acc.name == None
    requires var tid := Skip(t.types, from); t.types[tid].info.kind == Array && acc.idx < t.types[tid].payload.nelems
    requires var eid := ElementType(t, from);
             && ResolvedSize(t.types, eid) == Ok(sz)
             && AddsWalk(accs, t, eid, Spec(s.accs + [Accessor(eid, acc.idx, None)], s.raw + [acc.idx],
                                            Plus(s.bitOffset, Span(acc.idx, sz))), r)
    ensures AddsWalk([acc] + accs, t, from, s, r)
  {
    var eid := ElementType(t, from);
    var found := Accessor(eid, acc.idx, None);
    var offset := Span(acc.idx, sz);
    var s1 := Spec(s.accs + [found], s.raw + [acc.idx], Plus(s.bitOffset, offset));
    var rest := r.raw[|s1.raw|..];
    ElementStep(t, from, acc.idx);
    hide Step, ResolvedSize, Skip;
    SplitAfter(s.raw, [acc.idx], r.raw);
    assert ([acc.idx] + rest)[1..] == rest;
    JoinWalks(acc, accs, found, s, offset, s1, r, Walk(t, eid, rest));
  }

  /** Along the accessors from number i on, the first field of each name fits. That
      can be told from the types alone. */
  ghost predicate FirstsFit(l: Btf, accs: seq<Accessor>, i: nat, t: Btf, from: Id, room: nat)
    requires Valid(l) && Valid(t) && LocalSpec(l, accs) && from < |t.types|
    decreases |accs| - i
  {
    if i >= |accs| then true
    else
      var tid := Skip(t.types, from);
      if accs[i].name.Some? then
        && FirstFits(l, accs[i], t, tid, room)
        && match FindBelow(t, tid, accs[i].name.value, room)
           case At(h) => FirstsFit(l, accs, i + 1, t, h.next, room - |h.path|)
           case _ => true
      else t.types[tid].info.kind == Array && room > 0 ==> FirstsFit(l, accs, i + 1, t, ElementType(t, from), room - 1)
  }

  /** Matching the accessors after the first one adds a walk along them. */
  lemma {:induction false} MatchAddsWalk(l: Btf, accs: seq<Accessor>, i: nat, t: Btf, from: Id, s: Spec)
    requires Valid(l) && Valid(t) && NamesOk(t) && LocalSpec(l, accs) && from < |t.types|
    requires |s.raw| <= MAX_LEN && s.bitOffset < U32 && 0 < i <= |accs|
    requires FirstsFit(l, accs, i, t, from, MAX_LEN - |s.raw|) && SpecMatchFrom(l, accs, i, t, from, s).verdict == Found
    ensures AddsWalk(accs[i..], t, from, s, SpecMatchFrom(l, accs, i, t, from, s).spec)
    decreases |accs| - i
  {
    hide MatchBelow, ResolvedSize, NamesOk, AddsWalk, NamedIn, FirstFits, FindBelow;
    var o := SpecMatchFrom(l, accs, i, t, from, s);
    if i == |accs| {
      assert accs[i..] == [] && o.spec == s;
      NothingAdded(t, from, s);
    } else {
      var acc, tid := accs[i], Skip(t.types, from);
      InnerInside(t.types, tid);
      assert accs[i..] == [acc] + accs[i + 1..];
      if acc.name.Some? {
        var o1 := MatchBelow(l, acc, t, tid, s);
        SkipTwice(t.types, from);
        FieldMatched(l, acc, t, tid, s);
        MatchAddsWalk(l, accs, i + 1, t, o1.next, o1.spec);
        FieldAdds(l, acc, t, from, s, accs[i + 1..], o.spec);
      } else {
        var eid := ElementType(t, from);
        var sz := ResolvedSize(t.types, eid).value;
        MatchAddsWalk(l, accs, i + 1, t, eid,
                      Spec(s.accs + [Accessor(eid, acc.idx, None)], s.raw + [acc.idx],
                           Plus(s.bitOffset, Span(acc.idx, sz))));
        ElementAdds(acc, t, from, s, accs[i + 1..], sz, o.spec);
      }
    }
  }

  lemma NothingAdded(t: Btf, from: Id, s: Spec)
    requires Valid(t) && from < |t.types| && s.bitOffset < U32
    ensures AddsWalk([], t, from, s, s)
  {
    assert s.raw[|s.raw|..] == [] && s.raw[..|s.raw|] == s.raw && s.accs + [] == s.accs;
  }

  /** If the first field of each name fits, a successful match gives the spec that
      parsing its own raw path in the target gives, and its accessors are those of
      the local spec. */
  lemma MatchIsParsed(l: Btf, local: seq<Accessor>, t: Btf, targId: Id)
    requires Valid(l) && Valid(t) && NamesOk(t) && LocalSpec(l, local) && targId < |t.types|
    requires local != [] && local[0].name == None && FirstsFit(l, local, 1, t, Skip(t.types, targId), MAX_LEN - 1)
    requires SpecMatchFrom(l, local, 0, t, targId, Spec([], [], 0)).verdict == Found
    ensures var r := SpecMatchFrom(l, local, 0, t, targId, Spec([], [], 0)).spec;
            var p := Parsed(t, targId, r.raw);
            p.Ok? && r == Spec(p.value.accs, r.raw, p.value.offset % U32) && SameAccess(local, p.value.accs)
  {
    hide ResolvedSize, NamesOk, NamedIn, MatchBelow, Step, FirstsFit;
    var acc, tid := local[0], Skip(t.types, targId);
    InnerInside(t.types, tid);
    SkipTwice(t.types, targId);
    var found, sz := Accessor(tid, acc.idx, None), ResolvedSize(t.types, tid).value;
    var s, s1 := Spec([], [], 0), Spec([found], [acc.idx], Plus(0, Span(acc.idx, sz)));
    assert [] + [found] == [found] && [] + [acc.idx] == [acc.idx];
    var r := SpecMatchFrom(l, local, 1, t, tid, s1).spec;
    assert r == SpecMatchFrom(l, local, 0, t, targId, s).spec;
    MatchAddsWalk(l, local, 1, t, tid, s1);
    assert local == [acc] + local[1..];
    JoinWalks(acc, local[1..], found, s, Span(acc.idx, sz), s1, r, Walk(t, tid, r.raw[1..]));
    assert r.raw[0] == r.raw[..1][0];
  }

  /** Where no name occurs twice, the fields that a successful match has found are
      the first ones. */
  lemma {:induction false} UniqueNamesFit(l: Btf, accs: seq<Accessor>, i: nat, t: Btf, from: Id, s: Spec)
    requires Valid(l) && Valid(t) && UniqueNames(t) && LocalSpec(l, accs) && from < |t.types|
    requires |s.raw| <= MAX_LEN && s.bitOffset < U32 && 0 < i <= |accs|
    requires SpecMatchFrom(l, accs, i, t, from, s).verdict == Found
    ensures FirstsFit(l, accs, i, t, from, MAX_LEN - |s.raw|)
    decreases |accs| - i
  {
    hide MatchBelow, ResolvedSize, UniqueNames, NamedIn, FirstFits, FindBelow;
    if i < |accs| {
      var acc, tid := accs[i], Skip(t.types, from);
      InnerInside(t.types, tid);
      if acc.name.Some? {
        var o1 := MatchBelow(l, acc, t, tid, s);
        UniqueNamesFit(l, accs, i + 1, t, o1.next, o1.spec);
        FieldFits(l, accs, i, t, from, s);
      } else {
        var eid := ElementType(t, from);
        var sz := ResolvedSize(t.types, eid).value;
        UniqueNamesFit(l, accs, i + 1, t, eid,
                       Spec(s.accs + [Accessor(eid, acc.idx, None)], s.raw + [acc.idx],
                            Plus(s.bitOffset, Span(acc.idx, sz))));
      }
    }
  }

  /** The field of accessor i fits, if those after it do. */
  lemma FieldFits(l: Btf, accs: seq<Accessor>, i: nat, t: Btf, from: Id, s: Spec)
    requires Valid(l) && Valid(t) && UniqueNames(t) && LocalSpec(l, accs) && from < |t.types|
    requires |s.raw| <= MAX_LEN && s.bitOffset < U32 && i < |accs| && accs[i].name.Some?
    requires var o := MatchBelow(l, accs[i], t, Skip(t.types, from), s);
             o.verdict == Found && FirstsFit(l, accs, i + 1, t, o.next, MAX_LEN - |o.spec.raw|)
    ensures FirstsFit(l, accs, i, t, from, MAX_LEN - |s.raw|)
  {
    hide MatchBelow, UniqueNames, FirstFits, FirstsFit, FindBelow, Skip;
    SkipTwice(t.types, from);
    var h := MatchedFirst(l, accs[i], t, Skip(t.types, from), s);
    FirstsFitStep(l, accs, i, t, from, MAX_LEN - |s.raw|, h);
  }

  /** A field matched where no name occurs twice is the first of its name. */
  lemma MatchedFirst(l: Btf, acc: Accessor, t: Btf, tid: Id, s: Spec) returns (h: Hit)
    requires Valid(l) && Valid(t) && UniqueNames(t) && NamedIn(l, acc) && tid < |t.types| && Skip(t.types, tid) == tid
    requires |s.raw| <= MAX_LEN && s.bitOffset < U32 && MatchBelow(l, acc, t, tid, s).verdict == Found
    ensures FirstFits(l, acc, t, tid, MAX_LEN - |s.raw|)
    ensures FindBelow(t, tid, acc.name.value, MAX_LEN - |s.raw|) == At(h)
    ensures var o := MatchBelow(l, acc, t, tid, s); o.next == h.next && |o.spec.raw| == |s.raw| + |h.path|
  {
    hide MatchBelow, UniqueNames, FirstFits, FindBelow, FindFrom, Compatible, Plus;
    UniqueNameFits(l, acc, t, tid, s);
    FieldMatched(l, acc, t, tid, s);
    h := FindBelow(t, tid, acc.name.value, MAX_LEN - |s.raw|).hit;
  }

  lemma FirstsFitStep(l: Btf, accs: seq<Accessor>, i: nat, t: Btf, from: Id, room: nat, h: Hit)
    requires Valid(l) && Valid(t) && LocalSpec(l, accs) && from < |t.types| && i < |accs| && accs[i].name.Some?
    requires FirstFits(l, accs[i], t, Skip(t.types, from), room)
    requires FindBelow(t, Skip(t.types, from), accs[i].name.value, room) == At(h)
    requires FirstsFit(l, accs, i + 1, t, h.next, room - |h.path|)
    ensures FirstsFit(l, accs, i, t, from, room)
  {
    hide FirstFits, FindBelow, Skip;
  }

  lemma UniqueNameFits(l: Btf, acc: Accessor, t: Btf, tid: Id, s: Spec)
    requires Valid(l) && Valid(t) && UniqueNames(t) && NamedIn(l, acc) && tid < |t.types| && Skip(t.types, tid) == tid
    requires |s.raw| <= MAX_LEN && s.bitOffset < U32 && MatchBelow(l, acc, t, tid, s).verdict == Found
    ensures FirstFits(l, acc, t, tid, MAX_LEN - |s.raw|)
  {
    hide Compatible, MatchFrom, FindFrom, CountFrom;
    var name, room := acc.name.value, MAX_LEN - |s.raw|;
    FewerInLessRoom(t, tid, 0, name, room, MAX_LEN);
    if !FirstFits(l, acc, t, tid, room) {
      UniqueOrNothingBelow(l, acc, t, tid, s);
      assert false;
    }
  }

  /** Parsed accessors are local accessors. */
  lemma {:induction false} WalkIsLocal(b: Btf, id: Id, steps: seq<nat>)
    requires Valid(b) && id < |b.types|
    ensures Walk(b, id, steps).Ok? ==> LocalSpec(b, Walk(b, id, steps).value.accs)
    decreases |steps|
  {
    if steps != [] {
      var s := Step(b, id, steps[0]);
      if s.Ok? {
        WalkIsLocal(b, s.value.end, steps[1..]);
        StepIsLocal(b, id, steps[0]);
      }
    }
  }

  lemma StepIsLocal(b: Btf, id: Id, i: nat)
    requires Valid(b) && id < |b.types|
    ensures Step(b, id, i).Ok? ==> LocalSpec(b, Step(b, id, i).value.accs)
  {
  }

  lemma ParsedIsLocal(b: Btf, typeId: Id, raw: seq<nat>)
    requires Valid(b) && typeId < |b.types| && Parsed(b, typeId, raw).Ok?
    ensures LocalSpec(b, Parsed(b, typeId, raw).value.accs)
  {
    WalkIsLocal(b, Skip(b.types, typeId), raw[1..]);
  }
}
