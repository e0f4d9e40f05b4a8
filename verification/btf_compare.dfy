/** Signature hashes and comparisons of descriptors used by btf__dedup. */
module BtfCompare {
  import opened BtfTypes

  const LONG_RANGE: nat := 0x1_0000_0000_0000_0000

  /** h * 31 + value in a wrapping 64-bit long, read as unsigned. */
  function HashCombine(h: nat, value: nat): nat {
    (h * 31 + value) % LONG_RANGE
  }

  /** The info word as the hash sees it. */
  function InfoWord(info: Info): nat {
    (if info.kflag then 0x8000_0000 else 0) + KindNumber(info.kind) * 0x100_0000 + info.vlen
  }

  function KindNumber(k: Kind): nat {
    match k
    case Unkn => 0 case Int => 1 case Ptr => 2 case Array => 3 case Struct => 4 case Union => 5
    case Enum => 6 case Fwd => 7 case Typedef => 8 case Volatile => 9 case Const => 10
    case Restrict => 11 case Func => 12 case FuncProto => 13 case Var => 14 case DataSec => 15
  }

  function HashCommon(t: BtfType): nat {
    HashCombine(HashCombine(HashCombine(0, t.nameOff), InfoWord(t.info)), t.size)
  }

  function HashInt(t: BtfType): nat
    requires t.payload.IntData?
  {
    HashCombine(HashCommon(t), t.payload.bits)
  }

  /** Leaves vlen and the enumerators out, so that a forward enum hashes as its definition. */
  function HashEnum(t: BtfType): nat {
    HashCombine(HashCombine(HashCombine(0, t.nameOff), InfoWord(t.info.(vlen := 0))), t.size)
  }

  function HashMembers(h: nat, ms: seq<Member>): nat
    decreases |ms|
  {
    if ms == [] then h
    else HashMembers(HashCombine(HashCombine(h, ms[0].nameOff), ms[0].offset), ms[1..])
  }

  /** Leaves the member types out: they may not be resolved yet. */
  function HashStruct(t: BtfType): nat
    requires t.payload.Members?
  {
    HashMembers(HashCommon(t), t.payload.members)
  }

  function HashArray(t: BtfType): nat
    requires t.payload.ArrayData?
  {
    HashCombine(HashCombine(HashCombine(HashCommon(t), t.payload.elem), t.payload.index), t.payload.nelems)
  }

  function HashParams(h: nat, ps: seq<Param>): nat
    decreases |ps|
  {
    if ps == [] then h
    else HashParams(HashCombine(HashCombine(h, ps[0].nameOff), ps[0].typ), ps[1..])
  }

  function HashFnProto(t: BtfType): nat
    requires t.payload.Params?
  {
    HashParams(HashCommon(t), t.payload.params)
  }

  /** The hash under which a descriptor is filed. */
  function HashOf(t: BtfType): nat
    requires WellFormed(t)
  {
    match t.info.kind
    case Int => HashInt(t)
    case Enum => HashEnum(t)
    case Struct | Union => HashStruct(t)
    case Array => HashArray(t)
    case FuncProto => HashFnProto(t)
    case _ => HashCommon(t)
  }

  predicate EqualCommon(t: BtfType, u: BtfType) {
    t.nameOff == u.nameOff && t.info == u.info && t.size == u.size
  }

  predicate EqualInt(t: BtfType, u: BtfType)
    requires WellFormed(t) && WellFormed(u) && t.info.kind == Int
  {
    EqualCommon(t, u) && t.payload.bits == u.payload.bits
  }

  predicate EqualEnum(t: BtfType, u: BtfType)
    requires WellFormed(t) && WellFormed(u) && t.info.kind == Enum
  {
    && EqualCommon(t, u)
    && forall i :: 0 <= i < t.info.vlen ==>
      && t.payload.enumerators[i].nameOff == u.payload.enumerators[i].nameOff
      && t.payload.enumerators[i].val == u.payload.enumerators[i].val
  }

  predicate IsEnumFwd(t: BtfType) {
    t.info.kind == Enum && t.info.vlen == 0
  }

  predicate CompatEnum(t: BtfType, u: BtfType)
    requires WellFormed(t) && WellFormed(u) && t.info.kind == Enum
  {
    if !IsEnumFwd(t) && !IsEnumFwd(u) then EqualEnum(t, u)
    else t.nameOff == u.nameOff && t.info.(vlen := 0) == u.info.(vlen := 0) && t.size == u.size
  }

  predicate ShallowEqualStruct(t: BtfType, u: BtfType)
    requires WellFormed(t) && WellFormed(u) && IsComposite(t.info.kind)
  {
    && EqualCommon(t, u)
    && forall i :: 0 <= i < t.info.vlen ==>
      && t.payload.members[i].nameOff == u.payload.members[i].nameOff
      && t.payload.members[i].offset == u.payload.members[i].offset
  }

  predicate EqualArray(t: BtfType, u: BtfType)
    requires WellFormed(t) && WellFormed(u) && t.info.kind == Array
  {
    && EqualCommon(t, u)
    && t.payload.elem == u.payload.elem
    && t.payload.index == u.payload.index
    && t.payload.nelems == u.payload.nelems
  }

  predicate CompatArray(t: BtfType, u: BtfType)
    requires WellFormed(t) && WellFormed(u) && t.info.kind == Array
  {
    EqualCommon(t, u) && t.payload.nelems == u.payload.nelems
  }

  predicate EqualFnProto(t: BtfType, u: BtfType)
    requires WellFormed(t) && WellFormed(u) && t.info.kind == FuncProto
  {
    && EqualCommon(t, u)
    && forall i :: 0 <= i < t.info.vlen ==>
      && t.payload.params[i].nameOff == u.payload.params[i].nameOff
      && t.payload.params[i].typ == u.payload.params[i].typ
  }

  predicate CompatFnProto(t: BtfType, u: BtfType)
    requires WellFormed(t) && WellFormed(u) && t.info.kind == FuncProto
  {
    && t.nameOff == u.nameOff && t.info == u.info
    && forall i :: 0 <= i < t.info.vlen ==> t.payload.params[i].nameOff == u.payload.params[i].nameOff
  }

  /** The comparison the primitive and reference passes use for each kind. */
  predicate EqualFiled(t: BtfType, u: BtfType)
    requires WellFormed(t) && WellFormed(u)
  {
    match t.info.kind
    case Int => EqualInt(t, u)
    case Enum => EqualEnum(t, u)
    case Array => EqualArray(t, u)
    case FuncProto => EqualFnProto(t, u)
    case _ => EqualCommon(t, u)
  }

  /** The comparison the equivalence check makes, without FWD resolution,
      before it follows references. */
  predicate LocallyEqual(t: BtfType, u: BtfType)
    requires WellFormed(t) && WellFormed(u)
  {
    match t.info.kind
    case Int => EqualInt(t, u)
    case Enum => EqualEnum(t, u)
    case Fwd => EqualCommon(t, u)
    case Array => CompatArray(t, u)
    case Struct | Union => ShallowEqualStruct(t, u)
    case FuncProto => CompatFnProto(t, u)
    case _ => t.nameOff == u.nameOff && t.info == u.info
  }

  /** For primitive and reference kinds, equal means identical records. */
  lemma EqualFiledIsIdentity(t: BtfType, u: BtfType)
    requires WellFormed(t) && WellFormed(u)
    requires IsPrimKind(t.info.kind) || IsRefKind(t.info.kind)
    ensures EqualFiled(t, u) <==> t == u
  {
    if EqualFiled(t, u) {
      match t.info.kind
      case Enum =>
        assert t.payload.enumerators == u.payload.enumerators;
      case FuncProto =>
        assert t.payload.params == u.payload.params;
      case _ =>
    }
  }

  lemma StructLabel(t: BtfType, u: BtfType)
    requires WellFormed(t) && WellFormed(u) && IsComposite(t.info.kind)
    ensures ShallowEqualStruct(t, u) <==> Label(t) == Label(u)
  {
    var l, m := Label(t), Label(u);
    if ShallowEqualStruct(t, u) {
      assert l.payload.members == m.payload.members;
    }
    if l == m {
      forall i | 0 <= i < t.info.vlen
        ensures t.payload.members[i].nameOff == u.payload.members[i].nameOff
        ensures t.payload.members[i].offset == u.payload.members[i].offset
      {
        assert l.payload.members[i] == t.payload.members[i].(typ := 0);
        assert m.payload.members[i] == u.payload.members[i].(typ := 0);
      }
    }
  }

  lemma FnProtoLabel(t: BtfType, u: BtfType)
    requires WellFormed(t) && WellFormed(u) && t.info.kind == FuncProto
    ensures CompatFnProto(t, u) <==> Label(t) == Label(u)
  {
    var l, m := Label(t), Label(u);
    if CompatFnProto(t, u) {
      assert l.payload.params == m.payload.params;
    }
    if l == m {
      forall i | 0 <= i < t.info.vlen
        ensures t.payload.params[i].nameOff == u.payload.params[i].nameOff
      {
        assert l.payload.params[i] == t.payload.params[i].(typ := 0);
        assert m.payload.params[i] == u.payload.params[i].(typ := 0);
      }
    }
  }

  /** The local comparison is equality of everything but the references. */
  lemma LocallyEqualIsLabel(t: BtfType, u: BtfType)
    requires WellFormed(t) && WellFormed(u)
    requires IsPrimKind(t.info.kind) || IsRefKind(t.info.kind) || IsComposite(t.info.kind)
    ensures LocallyEqual(t, u) <==> Label(t) == Label(u)
  {
    if IsComposite(t.info.kind) {
      StructLabel(t, u);
    } else if t.info.kind == FuncProto {
      FnProtoLabel(t, u);
    } else if IsPrimKind(t.info.kind) {
      PrimLocallyEqual(t, u);
    } else {
      RefLabel(t, u);
    }
  }

  lemma RefLabel(t: BtfType, u: BtfType)
    requires WellFormed(t) && WellFormed(u) && (IsSimpleRef(t.info.kind) || t.info.kind == Array)
    ensures LocallyEqual(t, u) <==> Label(t) == Label(u)
  {
  }

  lemma PrimLocallyEqual(t: BtfType, u: BtfType)
    requires WellFormed(t) && WellFormed(u) && IsPrimKind(t.info.kind)
    ensures LocallyEqual(t, u) <==> Label(t) == Label(u)
  {
    EqualFiledIsIdentity(t, u);
    if t.info == u.info {
      PrimLabel(t);
      PrimLabel(u);
    }
  }

  lemma PrimLabel(t: BtfType)
    requires WellFormed(t) && IsPrimKind(t.info.kind)
    ensures Refs(t) == [] && Label(t) == t
  {
    SetOwnRefs(t);
  }

  lemma {:induction false} HashMembersByShape(h: nat, ms: seq<Member>, ns: seq<Member>)
    requires |ms| == |ns|
    requires forall i :: 0 <= i < |ms| ==> ms[i].nameOff == ns[i].nameOff && ms[i].offset == ns[i].offset
    ensures HashMembers(h, ms) == HashMembers(h, ns)
    decreases |ms|
  {
    if ms != [] {
      HashMembersByShape(HashCombine(HashCombine(h, ms[0].nameOff), ms[0].offset), ms[1..], ns[1..]);
    }
  }

  /** Structs that look alike are filed under one hash. */
  lemma StructHashByLabel(t: BtfType, u: BtfType)
    requires WellFormed(t) && WellFormed(u) && IsComposite(t.info.kind) && Label(t) == Label(u)
    ensures HashOf(t) == HashOf(u)
  {
    StructLabel(t, u);
    HashMembersByShape(HashCommon(t), t.payload.members, u.payload.members);
  }
}
