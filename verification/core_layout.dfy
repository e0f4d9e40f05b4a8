/** Where CO-RE paths lead in memory (eBPF_app/libbpf/src/libbpf.c). */
module CoreLayout {
  import opened BtfTypes
  import opened CoreBtf
  import opened CoreMatch
  import opened CoreField
  import opened Results
  import opened Words
  import FieldRelo

  /** One step more on a walk. */
  lemma {:induction false} WalkThen(b: Btf, id: Id, steps: seq<nat>, i: nat)
    requires Valid(b) && id < |b.types| && Walk(b, id, steps).Ok?
    ensures var w := Walk(b, id, steps).value;
            match Step(b, w.end, i)
            case Ok(s) => Walk(b, id, steps + [i]) == Ok(Walked(w.accs + s.accs, w.offset + s.offset, s.end))
            case e => Walk(b, id, steps + [i]) == e
    decreases |steps|
  {
    hide Step, Valid;
    var more := steps + [i];
    if steps == [] {
      assert more == [i] && more[1..] == [];
      OneStep(b, id, i);
    } else {
      assert more[0] == steps[0] && more[1..] == steps[1..] + [i];
      var s := Step(b, id, steps[0]).value;
      WalkThen(b, s.end, steps[1..], i);
      Regrouped(s.accs, Walk(b, s.end, steps[1..]).value.accs);
    }
  }

  lemma OneStep(b: Btf, id: Id, i: nat)
    requires Valid(b) && id < |b.types|
    ensures match Step(b, id, i)
            case Ok(s) => Walk(b, id, [i]) == Ok(Walked([] + s.accs, 0 + s.offset, s.end))
            case e => Walk(b, id, [i]) == e
  {
    hide Step, Valid;
    assert [i][1..] == [];
    if Step(b, id, i).Ok? {
      var s := Step(b, id, i).value;
      assert s.accs + [] == s.accs && [] + s.accs == s.accs;
    }
  }

  lemma Regrouped(a: seq<Accessor>, c: seq<Accessor>)
    ensures forall e: seq<Accessor> :: a + (c + e) == a + c + e
  {
  }

  /** One index more in a parsed spec. */
  lemma ParsedThen(b: Btf, typeId: Id, raw: seq<nat>, i: nat)
    requires Valid(b) && typeId < |b.types| && Parsed(b, typeId, raw).Ok? && Parsed(b, typeId, raw + [i]).Ok?
    ensures var w, v := Parsed(b, typeId, raw).value, Parsed(b, typeId, raw + [i]).value;
            Step(b, w.end, i).Ok? && v.offset == w.offset + Step(b, w.end, i).value.offset
  {
    hide Step, Walk, ResolvedSize, Skip;
    var id := Skip(b.types, typeId);
    assert (raw + [i])[1..] == raw[1..] + [i] && (raw + [i])[0] == raw[0];
    WalkThen(b, id, raw[1..], i);
  }

  /** The size that is computed is the size. */
  lemma ResolvedIsTrue(b: Btf, id: Id)
    requires Valid(b) && id < |b.types| && ResolvedSize(b.types, id).Ok?
    ensures TrueSize(b.types, id, MAX_RESOLVE_DEPTH) == ResolvedSize(b.types, id)
  {
    SizeIsTrue(b.types, id, MAX_RESOLVE_DEPTH, 1);
  }

  /** The first index counts objects of the root type: bit offset 8 times the index
      times the size. */
  lemma RootOffset(b: Btf, typeId: Id, i: nat)
    requires Valid(b) && typeId < |b.types| && Parsed(b, typeId, [i]).Ok?
    ensures var size := TrueSize(b.types, Skip(b.types, typeId), MAX_RESOLVE_DEPTH);
            size.Ok? && Parsed(b, typeId, [i]).value.offset == 8 * (i * size.value)
  {
    ResolvedIsTrue(b, Skip(b.types, typeId));
    hide ResolvedSize, Skip, TrueSize;
    assert [i][1..] == [];
  }

  /** The size of the elements of an array. */
  ghost function ElementSize(b: Btf, id: Id): (size: Result<nat>)
    requires Valid(b) && id < |b.types|
  {
    if b.types[Skip(b.types, id)].info.kind == Array then TrueSize(b.types, ElementType(b, id), MAX_RESOLVE_DEPTH)
    else Invalid
  }

  /** Element i of an array lies 8 times i times the element's size behind the array. */
  lemma ElementOffset(b: Btf, typeId: Id, raw: seq<nat>, i: nat)
    requires Valid(b) && typeId < |b.types| && Parsed(b, typeId, raw).Ok? && Parsed(b, typeId, raw + [i]).Ok?
    requires b.types[Skip(b.types, Parsed(b, typeId, raw).value.end)].info.kind == Array
    ensures var w, v := Parsed(b, typeId, raw).value, Parsed(b, typeId, raw + [i]).value;
            var size := ElementSize(b, w.end);
            && size.Ok? && i < b.types[Skip(b.types, w.end)].payload.nelems
            && v.offset == w.offset + 8 * (i * size.value)
  {
    var w := Parsed(b, typeId, raw).value;
    ParsedThen(b, typeId, raw, i);
    hide Parsed, ResolvedSize, TrueSize;
    ResolvedIsTrue(b, ElementType(b, w.end));
  }

  /** A member lies at its own bit offset behind its struct or union: the whole offset
      word, or its low 24 bits if the kind flag is set, when the high 8 bits are the
      size of a bitfield. */
  lemma MemberOffsetIs(b: Btf, typeId: Id, raw: seq<nat>, i: nat, bitSize: nat, bitOffset: nat)
    requires Valid(b) && typeId < |b.types| && Parsed(b, typeId, raw).Ok? && Parsed(b, typeId, raw + [i]).Ok?
    requires HasMember(b, Skip(b.types, Parsed(b, typeId, raw).value.end), i, bitSize, bitOffset)
    ensures Parsed(b, typeId, raw + [i]).value.offset == Parsed(b, typeId, raw).value.offset + bitOffset
    ensures var id := Skip(b.types, Parsed(b, typeId, raw).value.end);
            BitfieldSize(b.types[id], MembersOf(b, id)[i]) == bitSize
  {
    hide Parsed, ResolvedSize, Valid;
    ParsedThen(b, typeId, raw, i);
    MemberStepOffset(b, Parsed(b, typeId, raw).value.end, i, bitSize, bitOffset);
  }

  /** Member i has that bit offset, and as a bitfield that size, packed into one word
      if the kind flag is set. */
  ghost predicate HasMember(b: Btf, id: Id, i: nat, bitSize: nat, bitOffset: nat)
    requires Valid(b)
  {
    && id < |b.types| && IsComposite(b.types[id].info.kind) && i < b.types[id].info.vlen
    && if b.types[id].info.kflag then
         bitSize < 0x100 && bitOffset < 0x100_0000
         && MembersOf(b, id)[i].offset == bitSize * 0x100_0000 + bitOffset
       else bitSize == 0 && MembersOf(b, id)[i].offset == bitOffset
  }

  lemma MemberStepOffset(b: Btf, from: Id, i: nat, bitSize: nat, bitOffset: nat)
    requires Valid(b) && from < |b.types| && HasMember(b, Skip(b.types, from), i, bitSize, bitOffset)
    ensures Step(b, from, i).Ok? ==> Step(b, from, i).value.offset == bitOffset
    ensures var id := Skip(b.types, from); BitfieldSize(b.types[id], MembersOf(b, id)[i]) == bitSize
  {
    hide ResolvedSize;
  }

  /** Loading element i of an array of elements of that size reads these bits. */
  ghost predicate LoadsElement(mem: FieldRelo.Memory, first: nat, i: nat, size: nat, bits: nat) {
    FieldRelo.Bits(mem, bits, size * 8) == FieldRelo.Load(mem, first + i * size, size)
  }

  /** In memory: element i of an array on a byte boundary is i times the element's size
      behind the array's first byte. */
  lemma ElementInMemory(mem: FieldRelo.Memory, b: Btf, typeId: Id, raw: seq<nat>, i: nat, first: nat, size: nat)
    requires Valid(b) && typeId < |b.types| && Parsed(b, typeId, raw).Ok? && Parsed(b, typeId, raw + [i]).Ok?
    requires Parsed(b, typeId, raw).value.offset == 8 * first
    requires ElementSize(b, Parsed(b, typeId, raw).value.end) == Ok(size)
    ensures LoadsElement(mem, first, i, size, Parsed(b, typeId, raw + [i]).value.offset)
  {
    hide Parsed, TrueSize, FieldRelo.Bits, FieldRelo.Load, ElementType, Skip, Valid;
    ElementOffset(b, typeId, raw, i);
    BitsAreLoad(mem, first, i * size, size);
  }

  lemma BitsAreLoad(mem: FieldRelo.Memory, first: nat, n: nat, size: nat)
    ensures FieldRelo.Bits(mem, 8 * first + 8 * n, size * 8) == FieldRelo.Load(mem, first + n, size)
  {
    hide FieldRelo.Bits, FieldRelo.Load;
    FieldRelo.LoadIsBits(mem, first + n, size);
    assert (first + n) * 8 == 8 * first + 8 * n;
  }

  /** The sign of an integer is the lowest bit of its encoding, the byte in bits 24 to
      31 of the word behind its record, under which lie its bit offset and size. */
  lemma SignIsEncoded(t: BtfType, behind: bool, encoding: nat, offset: nat, bits: nat)
    requires t.info.kind == Int && offset < 0x100 && bits < 0x1_0000
    requires t.payload == IntData(encoding * 0x100_0000 + offset * 0x1_0000 + bits)
    ensures SignedBit(t, behind) <==> encoding % 2 == 1
  {
  }
}
