/** From a matched spec to the value of the field it leads to
    (eBPF_app/libbpf/src/libbpf.c, bpf_core_read.h). */
module CoreField {
  import opened BtfTypes
  import opened CoreBtf
  import opened CoreMatch
  import opened Options
  import opened Results
  import opened Words
  import FieldRelo

  /** btf_member_bitfield_size. */
  function BitfieldSize(t: BtfType, m: Member): (n: nat)
    ensures n < 256
  {
    if t.info.kflag then m.offset / 0x100_0000 % 256 else 0
  }

  /** The INT_SIGNED bit of the word behind a type's record: the encoding of an
      integer, and otherwise whatever lies there. */
  function SignedBit(t: BtfType, behind: bool): bool {
    if t.info.kind == Int && t.payload.IntData? then t.payload.bits / 0x100_0000 % 2 == 1 else behind
  }

  function AsOption(r: Result<nat>): Option<nat> {
    if r.Ok? then Some(r.value) else None
  }

  /** An accessor that is an element or a member of its type. */
  ghost predicate AccessorIn(b: Btf, acc: Accessor)
    requires Valid(b)
  {
    acc.typeId < |b.types| && (acc.name == None || NamedIn(b, acc))
  }

  /** What bpf_core_calc_field_relo looks at: the last accessor and the bit offset. */
  ghost function AccessOf(b: Btf, s: Spec, behind: bool): (a: FieldRelo.Access)
    requires Valid(b) && s.accs != [] && AccessorIn(b, s.accs[|s.accs| - 1])
    ensures a.bitOffset == s.bitOffset && (a.Member? <==> s.accs[|s.accs| - 1].name.Some?)
  {
    var acc := s.accs[|s.accs| - 1];
    if acc.name == None then FieldRelo.Element(s.bitOffset, AsOption(ResolvedSize(b.types, acc.typeId)))
    else
      var t, m := b.types[acc.typeId], MembersOf(b, acc.typeId)[acc.idx];
      MemberInside(b.types, acc.typeId, acc.idx);
      var mt := b.types[Skip(b.types, m.typ)];
      FieldRelo.Member(s.bitOffset, AsOption(ResolvedSize(b.types, m.typ)), BitfieldSize(t, m), mt.size,
                       mt.info.kind == Enum, SignedBit(mt, behind))
  }

  method Access(b: Btf, s: Spec, behind: bool) returns (a: FieldRelo.Access)
    requires Valid(b) && s.accs != [] && AccessorIn(b, s.accs[|s.accs| - 1])
    ensures a == AccessOf(b, s, behind)
  {
    var acc := s.accs[|s.accs| - 1];
    if acc.name == None {
      var sz := ResolveSize(b.types, acc.typeId);
      return FieldRelo.Element(s.bitOffset, AsOption(sz));
    }
    var t, m := b.types[acc.typeId], MembersOf(b, acc.typeId)[acc.idx];
    MemberInside(b.types, acc.typeId, acc.idx);
    var id := SkipModsAndTypedefs(b.types, m.typ);
    var mt := b.types[id];
    var sz := ResolveSize(b.types, m.typ);
    a := FieldRelo.Member(s.bitOffset, AsOption(sz), BitfieldSize(t, m), mt.size, mt.info.kind == Enum,
                          SignedBit(mt, behind));
  }

  /** A local spec of a named field: as parsing makes it. */
  ghost predicate FieldSpec(l: Btf, local: seq<Accessor>)
    requires Valid(l)
  {
    LocalSpec(l, local) && local != [] && local[0].name == None && local[|local| - 1].name.Some?
  }

  /** What the matched spec of a field is: the path in the target along the local
      accessors, down to a member of one of its structs or unions. */
  ghost predicate LeadsTo(local: seq<Accessor>, t: Btf, targId: Id, s: Spec)
    requires Valid(t) && targId < |t.types|
  {
    && Parsed(t, targId, s.raw).Ok?
    && var p := Parsed(t, targId, s.raw).value;
       && s == Spec(p.accs, s.raw, p.offset % U32) && SameAccess(local, p.accs)
       && p.accs != [] && p.accs[|p.accs| - 1].name.Some? && AccessorIn(t, p.accs[|p.accs| - 1])
  }

  lemma MatchLeads(l: Btf, local: seq<Accessor>, t: Btf, targId: Id)
    requires Valid(l) && Valid(t) && NamesOk(t) && FieldSpec(l, local) && targId < |t.types|
    requires FirstsFit(l, local, 1, t, Skip(t.types, targId), MAX_LEN - 1)
    requires SpecMatchFrom(l, local, 0, t, targId, Spec([], [], 0)).verdict == Found
    ensures LeadsTo(local, t, targId, SpecMatchFrom(l, local, 0, t, targId, Spec([], [], 0)).spec)
  {
    hide SpecMatchFrom, FirstsFit, NamesOk;
    MatchIsParsed(l, local, t, targId);
    ParsedIsLocal(t, targId, SpecMatchFrom(l, local, 0, t, targId, Spec([], [], 0)).spec.raw);
  }

  /** The value of the field at the end of a path, whose first bit is given. */
  ghost function ValueAt(mem: FieldRelo.Memory, t: Btf, acc: Accessor, offset: nat, behind: bool): (v: Option<nat>)
    requires Valid(t) && NamedIn(t, acc)
  {
    var m := MembersOf(t, acc.typeId)[acc.idx];
    MemberInside(t.types, acc.typeId, acc.idx);
    var mt, n := t.types[Skip(t.types, m.typ)], BitfieldSize(t.types[acc.typeId], m);
    var size := ResolvedSize(t.types, m.typ);
    if n == 0 && !size.Ok? then None
    else
      var bits := if n > 0 then n else size.value * 8;
      if !(0 < bits <= 64) then None
      else
        var v := FieldRelo.Bits(mem, offset, bits);
        Some(if mt.info.kind == Enum || SignedBit(mt, behind) then FieldRelo.SignExtended(v, bits) else v)
  }

  /** The macro reads the value of the field the spec leads to. */
  lemma FieldIsValue(mem: FieldRelo.Memory, t: Btf, s: Spec, behind: bool)
    requires Valid(t) && s.accs != [] && NamedIn(t, s.accs[|s.accs| - 1])
    requires var a := AccessOf(t, s, behind);
             (a.bitfieldSize == 0 ==> a.resolved.Some?) && 0 < FieldRelo.BitSize(a) <= 64
    ensures ValueAt(mem, t, s.accs[|s.accs| - 1], s.bitOffset, behind) ==
              Some(FieldRelo.Field(mem, AccessOf(t, s, behind)))
  {
    hide FieldRelo.Bits, FieldRelo.SignExtended, Skip, ResolvedSize;
  }

  /** A local field matched against the target and then read with the macro:
      where the match succeeds, what is read is the value of the target's field
      at the end of the path with the local names and indices, or there is no
      load for that field. */
  method ReadMatched(l: Btf, local: seq<Accessor>, t: Btf, targId: Id, mem: FieldRelo.Memory, behind: bool)
    returns (verdict: Verdict, s: Spec, r: Result<nat>)
    requires Valid(l) && Valid(t) && NamesOk(t) && FieldSpec(l, local) && targId < |t.types|
    requires FirstsFit(l, local, 1, t, Skip(t.types, targId), MAX_LEN - 1)
    ensures verdict == SpecMatchFrom(l, local, 0, t, targId, Spec([], [], 0)).verdict
    ensures verdict == Found ==> LeadsTo(local, t, targId, s)
    ensures verdict == Found && FieldRelo.Readable(AccessOf(t, s, behind)) ==>
              if r.Ok? then Some(r.value) == ValueAt(mem, t, s.accs[|s.accs| - 1], s.bitOffset, behind)
              else FieldRelo.NoWindow(AccessOf(t, s, behind), r)
  {
    hide SpecMatchFrom, FirstsFit, NamesOk, NamedIn, AccessOf, ValueAt, FieldRelo.NoWindow, FieldRelo.Readable,
         FieldRelo.Field;
    var spec;
    verdict, spec := SpecMatch(l, local, t, targId);
    r, s := Invalid, spec.Value();
    if verdict == Found {
      MatchLeads(l, local, t, targId);
      var a := Access(t, s, behind);
      if FieldRelo.Readable(a) {
        r := FieldRelo.ReadBitfieldProbed(mem, a);
        if r.Ok? {
          FieldIsValue(mem, t, s, behind);
        }
      }
    }
  }
}
