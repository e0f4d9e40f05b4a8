/** BTF type descriptors (btf.h, linux/btf.h) and the graph they form. */
module BtfTypes {
  /** A type id, and an index into the types of a BTF object; 0 is void. */
  type Id = nat

  datatype Kind =
    | Unkn | Int | Ptr | Array | Struct | Union | Enum | Fwd | Typedef
    | Volatile | Const | Restrict | Func | FuncProto | Var | DataSec

  /** The info word: kind, kind_flag and vlen. */
  datatype Info = Info(kind: Kind, kflag: bool, vlen: nat)

  datatype Member = Member(nameOff: nat, typ: Id, offset: nat)
  datatype Enumerator = Enumerator(nameOff: nat, val: int)
  datatype Param = Param(nameOff: nat, typ: Id)
  datatype SecInfo = SecInfo(typ: Id, offset: nat, size: nat)

  /** What follows the common header of a descriptor. */
  datatype Payload =
    | Nothing
    | IntData(bits: nat)
    | ArrayData(elem: Id, index: Id, nelems: nat)
    | Members(members: seq<Member>)
    | Enumerators(enumerators: seq<Enumerator>)
    | Params(params: seq<Param>)
    | VarData(linkage: nat)
    | SecInfos(infos: seq<SecInfo>)

  /** struct btf_type: `size` holds the size or the referenced type id. */
  datatype BtfType = BtfType(nameOff: nat, info: Info, size: nat, payload: Payload) {
    function Kind(): Kind {
      info.kind
    }
  }

  const VOID := BtfType(0, Info(Unkn, false, 0), 0, Nothing)

  predicate IsComposite(k: Kind) {
    k == Struct || k == Union
  }

  /** Kinds whose header names one type and that carry nothing else. */
  predicate IsSimpleRef(k: Kind) {
    k in {Const, Volatile, Restrict, Ptr, Typedef, Func}
  }

  predicate IsRefKind(k: Kind) {
    IsSimpleRef(k) || k == Array || k == FuncProto
  }

  predicate IsPrimKind(k: Kind) {
    k == Int || k == Enum || k == Fwd
  }

  /** The header's size word is a type id. */
  predicate HeaderRefs(k: Kind) {
    IsSimpleRef(k) || k == FuncProto || k == Var
  }

  /** The payload is the one the kind calls for. */
  predicate WellFormed(t: BtfType) {
    match t.info.kind
    case Int => t.payload.IntData?
    case Array => t.payload.ArrayData?
    case Struct | Union => t.payload.Members? && |t.payload.members| == t.info.vlen
    case Enum => t.payload.Enumerators? && |t.payload.enumerators| == t.info.vlen
    case FuncProto => t.payload.Params? && |t.payload.params| == t.info.vlen
    case Var => t.payload.VarData?
    case DataSec => t.payload.SecInfos? && |t.payload.infos| == t.info.vlen
    case Fwd => t.payload.Nothing? && t.size == 0
    case _ => t.payload.Nothing?
  }

  /** Type ids in the payload. */
  function PayloadRefs(p: Payload): seq<Id> {
    match p
    case ArrayData(elem, index, _) => [elem, index]
    case Members(ms) => seq(|ms|, i requires 0 <= i < |ms| => ms[i].typ)
    case Params(ps) => seq(|ps|, i requires 0 <= i < |ps| => ps[i].typ)
    case SecInfos(vs) => seq(|vs|, i requires 0 <= i < |vs| => vs[i].typ)
    case _ => []
  }

  /** All type ids a descriptor refers to, in the order they are stored. */
  function Refs(t: BtfType): (rs: seq<Id>)
    ensures HeaderRefs(t.info.kind) ==> |rs| > 0
  {
    if HeaderRefs(t.info.kind) then [t.size] + PayloadRefs(t.payload) else PayloadRefs(t.payload)
  }

  function SetPayloadRefs(p: Payload, rs: seq<Id>): (q: Payload)
    requires |rs| == |PayloadRefs(p)|
    ensures PayloadRefs(q) == rs
  {
    match p
    case ArrayData(_, _, nelems) => ArrayData(rs[0], rs[1], nelems)
    case Members(ms) => Members(seq(|ms|, i requires 0 <= i < |ms| => ms[i].(typ := rs[i])))
    case Params(ps) => Params(seq(|ps|, i requires 0 <= i < |ps| => ps[i].(typ := rs[i])))
    case SecInfos(vs) => SecInfos(seq(|vs|, i requires 0 <= i < |vs| => vs[i].(typ := rs[i])))
    case _ => p
  }

  /** The descriptor with its references overwritten. */
  function SetRefs(t: BtfType, rs: seq<Id>): (u: BtfType)
    requires |rs| == |Refs(t)|
    ensures Refs(u) == rs
    ensures u.nameOff == t.nameOff && u.info == t.info
    ensures WellFormed(t) ==> WellFormed(u)
  {
    if HeaderRefs(t.info.kind) then
      var u := t.(size := rs[0], payload := SetPayloadRefs(t.payload, rs[1..]));
      assert Refs(u) == [rs[0]] + rs[1..];
      u
    else
      var u := t.(payload := SetPayloadRefs(t.payload, rs));
      u
  }

  /** Field by field: all ids of a descriptor are below n. */
  predicate IdsBelow(t: BtfType, n: nat) {
    && (t.info.kind in {Ptr, Const, Volatile, Restrict, Typedef, Func, FuncProto, Var} ==> t.size < n)
    && match t.payload
       case ArrayData(elem, index, _) => elem < n && index < n
       case Members(ms) => forall i :: 0 <= i < |ms| ==> ms[i].typ < n
       case Params(ps) => forall i :: 0 <= i < |ps| ==> ps[i].typ < n
       case SecInfos(vs) => forall i :: 0 <= i < |vs| ==> vs[i].typ < n
       case _ => true
  }

  lemma RefsAreIds(t: BtfType, n: nat)
    requires forall i :: 0 <= i < |Refs(t)| ==> Refs(t)[i] < n
    ensures IdsBelow(t, n)
  {
    var k := if HeaderRefs(t.info.kind) then 1 else 0;
    var rs := PayloadRefs(t.payload);
    assert HeaderRefs(t.info.kind) ==> Refs(t)[0] == t.size;
    forall i | 0 <= i < |rs|
      ensures rs[i] < n
    {
      assert Refs(t)[i + k] == rs[i];
    }
    match t.payload
    case Members(ms) => assert forall i :: 0 <= i < |ms| ==> ms[i].typ == rs[i];
    case Params(ps) => assert forall i :: 0 <= i < |ps| ==> ps[i].typ == rs[i];
    case SecInfos(vs) => assert forall i :: 0 <= i < |vs| ==> vs[i].typ == rs[i];
    case ArrayData(elem, index, _) => assert rs[0] == elem && rs[1] == index;
    case _ =>
  }

  /** Everything a descriptor says apart from the ids it refers to. */
  function Label(t: BtfType): (l: BtfType)
    ensures |Refs(l)| == |Refs(t)|
    ensures l.nameOff == t.nameOff && l.info == t.info
  {
    SetRefs(t, seq(|Refs(t)|, _ => 0))
  }

  lemma SetRefsTwice(t: BtfType, rs: seq<Id>, qs: seq<Id>)
    requires |rs| == |qs| == |Refs(t)|
    ensures SetRefs(SetRefs(t, rs), qs) == SetRefs(t, qs)
  {
    var p := t.payload;
    if HeaderRefs(t.info.kind) {
      SetPayloadRefsTwice(p, rs[1..], qs[1..]);
    } else {
      SetPayloadRefsTwice(p, rs, qs);
    }
  }

  lemma SetPayloadRefsTwice(p: Payload, rs: seq<Id>, qs: seq<Id>)
    requires |rs| == |qs| == |PayloadRefs(p)|
    ensures SetPayloadRefs(SetPayloadRefs(p, rs), qs) == SetPayloadRefs(p, qs)
  {
    var a, b := SetPayloadRefs(SetPayloadRefs(p, rs), qs), SetPayloadRefs(p, qs);
    match p
    case Members(ms) => assert a.members == b.members;
    case Params(ps) => assert a.params == b.params;
    case SecInfos(vs) => assert a.infos == b.infos;
    case _ =>
  }

  lemma SetOwnPayloadRefs(p: Payload)
    ensures SetPayloadRefs(p, PayloadRefs(p)) == p
  {
    var q := SetPayloadRefs(p, PayloadRefs(p));
    match p
    case Members(ms) => assert q.members == ms;
    case Params(ps) => assert q.params == ps;
    case SecInfos(vs) => assert q.infos == vs;
    case _ =>
  }

  lemma SetOwnRefs(t: BtfType)
    ensures SetRefs(t, Refs(t)) == t
  {
    SetOwnPayloadRefs(t.payload);
    if HeaderRefs(t.info.kind) {
      assert Refs(t)[1..] == PayloadRefs(t.payload);
    }
  }

  lemma SetRefsKeepsLabel(t: BtfType, rs: seq<Id>)
    requires |rs| == |Refs(t)|
    ensures Label(SetRefs(t, rs)) == Label(t)
  {
    SetRefsTwice(t, rs, seq(|Refs(t)|, _ => 0));
  }

  /** A label and the references are the whole descriptor. */
  lemma LabelAndRefs(t: BtfType, u: BtfType)
    requires Label(t) == Label(u) && Refs(t) == Refs(u)
    ensures t == u
  {
    SetOwnRefs(t);
    SetOwnRefs(u);
    SetRefsTwice(t, seq(|Refs(t)|, _ => 0), Refs(t));
    SetRefsTwice(u, seq(|Refs(u)|, _ => 0), Refs(u));
  }

  /** What a type looks like down to a depth: labels all the way, ids nowhere. */
  datatype Tree = Cut | Node(shape: BtfType, kids: seq<Tree>)

  ghost function Unfold(g: seq<BtfType>, x: Id, k: nat): Tree
    decreases k
  {
    if k == 0 || x >= |g| then Cut
    else Node(Label(g[x]), seq(|Refs(g[x])|, i requires 0 <= i < |Refs(g[x])| => Unfold(g, Refs(g[x])[i], k - 1)))
  }

  /** Two types in two graphs mean the same: no depth tells them apart. */
  ghost predicate Alike(g: seq<BtfType>, x: Id, h: seq<BtfType>, y: Id) {
    forall k: nat :: Unfold(g, x, k) == Unfold(h, y, k)
  }

  ghost predicate SameStep(g: seq<BtfType>, x: Id, h: seq<BtfType>, y: Id, k: nat)
    requires x < |g| && y < |h|
  {
    && Label(g[x]) == Label(h[y])
    && forall i ::
      0 <= i < |Refs(g[x])| && i < |Refs(h[y])| ==> Unfold(g, Refs(g[x])[i], k) == Unfold(h, Refs(h[y])[i], k)
  }

  /** One level more agrees exactly when labels and all references agree. */
  lemma UnfoldStep(g: seq<BtfType>, x: Id, h: seq<BtfType>, y: Id, k: nat)
    requires x < |g| && y < |h|
    ensures Unfold(g, x, k + 1) == Unfold(h, y, k + 1) <==> SameStep(g, x, h, y, k)
  {
    var a, b := Unfold(g, x, k + 1), Unfold(h, y, k + 1);
    if SameStep(g, x, h, y, k) {
      assert |Refs(Label(g[x]))| == |Refs(Label(h[y]))|;
      assert a.kids == b.kids;
    }
    if a == b {
      forall i | 0 <= i < |Refs(g[x])| && i < |Refs(h[y])|
        ensures Unfold(g, Refs(g[x])[i], k) == Unfold(h, Refs(h[y])[i], k)
      {
        assert a.kids[i] == b.kids[i];
      }
    }
  }

  /** Alike types have the same label and pairwise alike references. */
  lemma AlikeParts(g: seq<BtfType>, x: Id, h: seq<BtfType>, y: Id)
    requires x < |g| && y < |h| && Alike(g, x, h, y)
    ensures Label(g[x]) == Label(h[y]) && |Refs(g[x])| == |Refs(h[y])|
    ensures forall i :: 0 <= i < |Refs(g[x])| ==> Alike(g, Refs(g[x])[i], h, Refs(h[y])[i])
  {
    UnfoldStep(g, x, h, y, 0);
    assert Unfold(g, x, 1) == Unfold(h, y, 1);
    assert |Refs(Label(g[x]))| == |Refs(Label(h[y]))|;
    forall i, k: nat | 0 <= i < |Refs(g[x])|
      ensures Unfold(g, Refs(g[x])[i], k) == Unfold(h, Refs(h[y])[i], k)
    {
      UnfoldStep(g, x, h, y, k);
    }
  }

  lemma AlikeTrans(g: seq<BtfType>, x: Id, h: seq<BtfType>, y: Id, f: seq<BtfType>, z: Id)
    requires Alike(g, x, h, y) && Alike(h, y, f, z)
    ensures Alike(g, x, f, z)
  {
    forall k: nat
      ensures Unfold(g, x, k) == Unfold(f, z, k)
    {
      assert Unfold(g, x, k) == Unfold(h, y, k);
    }
  }

  /** Field by field: two descriptors differ at most in type ids. */
  ghost predicate SameButIds(t: BtfType, u: BtfType) {
    && t.nameOff == u.nameOff && t.info == u.info
    && (t.info.kind in {Ptr, Const, Volatile, Restrict, Typedef, Func, FuncProto, Var} || t.size == u.size)
    && SamePayloadButIds(t.payload, u.payload)
  }

  ghost predicate SamePayloadButIds(p: Payload, q: Payload) {
    match p
    case ArrayData(_, _, nelems) => q.ArrayData? && q.nelems == nelems
    case Members(ms) =>
      && q.Members? && |q.members| == |ms|
      && forall i :: 0 <= i < |ms| ==> q.members[i].nameOff == ms[i].nameOff && q.members[i].offset == ms[i].offset
    case Params(ps) =>
      q.Params? && |q.params| == |ps| && forall i :: 0 <= i < |ps| ==> q.params[i].nameOff == ps[i].nameOff
    case SecInfos(vs) =>
      && q.SecInfos? && |q.infos| == |vs|
      && forall i :: 0 <= i < |vs| ==> q.infos[i].offset == vs[i].offset && q.infos[i].size == vs[i].size
    case _ => q == p
  }

  /** As many type ids, in the same places. */
  predicate SameShape(p: Payload, q: Payload) {
    match p
    case ArrayData(_, _, _) => q.ArrayData?
    case Members(ms) => q.Members? && |q.members| == |ms|
    case Params(ps) => q.Params? && |q.params| == |ps|
    case SecInfos(vs) => q.SecInfos? && |q.infos| == |vs|
    case _ => !q.ArrayData? && !q.Members? && !q.Params? && !q.SecInfos?
  }

  /** Field by field: the type ids of two such descriptors are related. */
  ghost predicate IdsPaired(r: (Id, Id) -> bool, t: BtfType, u: BtfType) {
    && (t.info.kind in {Ptr, Const, Volatile, Restrict, Typedef, Func, FuncProto, Var} ==> r(t.size, u.size))
    && PayloadPaired(r, t.payload, u.payload)
  }

  ghost predicate PayloadPaired(r: (Id, Id) -> bool, p: Payload, q: Payload) {
    match p
    case ArrayData(elem, index, _) => q.ArrayData? && r(elem, q.elem) && r(index, q.index)
    case Members(ms) =>
      q.Members? && |q.members| == |ms| && forall i :: 0 <= i < |ms| ==> r(ms[i].typ, q.members[i].typ)
    case Params(ps) =>
      q.Params? && |q.params| == |ps| && forall i :: 0 <= i < |ps| ==> r(ps[i].typ, q.params[i].typ)
    case SecInfos(vs) =>
      q.SecInfos? && |q.infos| == |vs| && forall i :: 0 <= i < |vs| ==> r(vs[i].typ, q.infos[i].typ)
    case _ => true
  }

  function Zeros(n: nat): (rs: seq<Id>)
    ensures |rs| == n
  {
    seq(n, _ => 0)
  }

  lemma PayloadLabel(p: Payload, q: Payload)
    ensures SetPayloadRefs(p, Zeros(|PayloadRefs(p)|)) == SetPayloadRefs(q, Zeros(|PayloadRefs(q)|)) <==>
            SamePayloadButIds(p, q)
  {
    var a, b := SetPayloadRefs(p, Zeros(|PayloadRefs(p)|)), SetPayloadRefs(q, Zeros(|PayloadRefs(q)|));
    match p
    case Members(ms) =>
      if a == b {
        forall i | 0 <= i < |ms|
          ensures q.members[i].nameOff == ms[i].nameOff && q.members[i].offset == ms[i].offset
        {
          assert a.members[i] == b.members[i];
        }
      }
      if SamePayloadButIds(p, q) {
        assert a.members == b.members;
      }
    case Params(ps) =>
      if a == b {
        forall i | 0 <= i < |ps|
          ensures q.params[i].nameOff == ps[i].nameOff
        {
          assert a.params[i] == b.params[i];
        }
      }
      if SamePayloadButIds(p, q) {
        assert a.params == b.params;
      }
    case SecInfos(vs) =>
      if a == b {
        forall i | 0 <= i < |vs|
          ensures q.infos[i].offset == vs[i].offset && q.infos[i].size == vs[i].size
        {
          assert a.infos[i] == b.infos[i];
        }
      }
      if SamePayloadButIds(p, q) {
        assert a.infos == b.infos;
      }
    case _ =>
  }

  lemma LabelParts(t: BtfType)
    ensures Label(t) == t.(size := if HeaderRefs(t.info.kind) then 0 else t.size,
                           payload := SetPayloadRefs(t.payload, Zeros(|PayloadRefs(t.payload)|)))
  {
    var zeros := seq(|Refs(t)|, _ => 0);
    assert HeaderRefs(t.info.kind) ==> zeros[1..] == Zeros(|PayloadRefs(t.payload)|);
    assert !HeaderRefs(t.info.kind) ==> zeros == Zeros(|PayloadRefs(t.payload)|);
  }

  /** The label is all fields but ids. */
  lemma LabelByFields(t: BtfType, u: BtfType)
    ensures Label(t) == Label(u) <==> SameButIds(t, u)
  {
    LabelParts(t);
    LabelParts(u);
    PayloadLabel(t.payload, u.payload);
    hide SetPayloadRefs, SamePayloadButIds, Zeros, PayloadRefs, Label;
  }

  lemma PayloadByFields(r: (Id, Id) -> bool, p: Payload, q: Payload)
    requires SameShape(p, q)
    ensures |PayloadRefs(p)| == |PayloadRefs(q)|
    ensures PayloadPaired(r, p, q) <==>
            forall i :: 0 <= i < |PayloadRefs(p)| ==> r(PayloadRefs(p)[i], PayloadRefs(q)[i])
  {
    var ps, qs := PayloadRefs(p), PayloadRefs(q);
    match p
    case ArrayData(elem, index, _) =>
      assert ps[0] == elem && ps[1] == index && qs[0] == q.elem && qs[1] == q.index && |ps| == 2;
    case Members(ms) => assert forall i :: 0 <= i < |ms| ==> ps[i] == ms[i].typ && qs[i] == q.members[i].typ;
    case Params(vs) => assert forall i :: 0 <= i < |vs| ==> ps[i] == vs[i].typ && qs[i] == q.params[i].typ;
    case SecInfos(vs) => assert forall i :: 0 <= i < |vs| ==> ps[i] == vs[i].typ && qs[i] == q.infos[i].typ;
    case _ =>
  }

  /** The references are all ids. */
  lemma RefsByFields(r: (Id, Id) -> bool, t: BtfType, u: BtfType)
    requires t.info == u.info && SameShape(t.payload, u.payload)
    ensures |Refs(t)| == |Refs(u)|
    ensures IdsPaired(r, t, u) <==> forall i :: 0 <= i < |Refs(t)| ==> r(Refs(t)[i], Refs(u)[i])
  {
    PayloadByFields(r, t.payload, u.payload);
    hide PayloadRefs, PayloadPaired, SameShape;
    var k := if HeaderRefs(t.info.kind) then 1 else 0;
    var ps, qs := PayloadRefs(t.payload), PayloadRefs(u.payload);
    assert |Refs(t)| == |ps| + k && |Refs(u)| == |qs| + k;
    forall i | 0 <= i < |ps|
      ensures Refs(t)[i + k] == ps[i] && Refs(u)[i + k] == qs[i]
    {
    }
    if forall i :: 0 <= i < |Refs(t)| ==> r(Refs(t)[i], Refs(u)[i]) {
      forall i | 0 <= i < |ps|
        ensures r(ps[i], qs[i])
      {
        assert r(Refs(t)[i + k], Refs(u)[i + k]);
      }
      assert k == 1 ==> Refs(t)[0] == t.size && Refs(u)[0] == u.size;
    }
    if IdsPaired(r, t, u) {
      forall i | 0 <= i < |Refs(t)|
        ensures r(Refs(t)[i], Refs(u)[i])
      {
        assert i >= k ==> Refs(t)[i] == ps[i - k] && Refs(u)[i] == qs[i - k];
      }
    }
  }

  /** Field by field: every type id has become its new id. */
  ghost predicate IdsMapped(newId: Id -> Id, t: BtfType, u: BtfType) {
    IdsPaired((a: Id, b: Id) => b == newId(a), t, u)
  }

  /** Field by field: new ids, and everything else is the same. */
  ghost predicate IdsRenumbered(newId: Id -> Id, t: BtfType, u: BtfType) {
    SameButIds(t, u) && IdsMapped(newId, t, u)
  }

  lemma SetRefsRenumbers(newId: Id -> Id, t: BtfType, rs: seq<Id>)
    requires |rs| == |Refs(t)| && forall i :: 0 <= i < |rs| ==> rs[i] == newId(Refs(t)[i])
    ensures IdsRenumbered(newId, t, SetRefs(t, rs))
  {
    SetRefsKeepsLabel(t, rs);
    LabelByFields(t, SetRefs(t, rs));
    assert SameShape(t.payload, SetRefs(t, rs).payload);
    hide Label, SameButIds, IdsPaired, SetRefs, Refs;
    RefsByFields((a: Id, b: Id) => b == newId(a), t, SetRefs(t, rs));
  }

  /** Types that mean the same agree in all fields but ids, and the ids in the same
      fields mean the same. */
  lemma AlikeByFields(g: seq<BtfType>, x: Id, h: seq<BtfType>, y: Id)
    requires x < |g| && y < |h| && Alike(g, x, h, y)
    ensures SameButIds(g[x], h[y])
    ensures IdsPaired((a: Id, b: Id) => Alike(g, a, h, b), g[x], h[y])
  {
    AlikeParts(g, x, h, y);
    LabelByFields(g[x], h[y]);
    assert SameShape(g[x].payload, h[y].payload);
    hide Alike, Label, Refs, SameButIds, IdsPaired;
    RefsByFields((a: Id, b: Id) => Alike(g, a, h, b), g[x], h[y]);
  }

  /** The relation r keeps all fields but ids, and relates the ids. */
  ghost predicate Bisimilar(g: seq<BtfType>, h: seq<BtfType>, r: (Id, Id) -> bool) {
    forall a: Id, b: Id :: r(a, b) ==> a < |g| && b < |h| && SameButIds(g[a], h[b]) && IdsPaired(r, g[a], h[b])
  }

  lemma BisimilarPair(g: seq<BtfType>, h: seq<BtfType>, r: (Id, Id) -> bool, x: Id, y: Id)
    requires Bisimilar(g, h, r) && r(x, y)
    ensures x < |g| && y < |h| && Label(g[x]) == Label(h[y]) && |Refs(g[x])| == |Refs(h[y])|
    ensures forall i :: 0 <= i < |Refs(g[x])| ==> r(Refs(g[x])[i], Refs(h[y])[i])
  {
    hide Label, Refs, IdsPaired;
    LabelByFields(g[x], h[y]);
    RefsByFields(r, g[x], h[y]);
  }

  /** What is related cannot be told apart within k levels. */
  ghost predicate RelatedAgree(g: seq<BtfType>, h: seq<BtfType>, r: (Id, Id) -> bool, k: nat) {
    forall a: Id, b: Id :: r(a, b) ==> Unfold(g, a, k) == Unfold(h, b, k)
  }

  lemma BisimilarStep(g: seq<BtfType>, h: seq<BtfType>, r: (Id, Id) -> bool, x: Id, y: Id, k: nat)
    requires Bisimilar(g, h, r) && r(x, y) && RelatedAgree(g, h, r, k)
    ensures Unfold(g, x, k + 1) == Unfold(h, y, k + 1)
  {
    BisimilarPair(g, h, r, x, y);
    hide Bisimilar, Label, Refs, Unfold;
    UnfoldStep(g, x, h, y, k);
  }

  lemma RelatedAtZero(g: seq<BtfType>, h: seq<BtfType>, r: (Id, Id) -> bool)
    ensures RelatedAgree(g, h, r, 0)
  {
  }

  lemma RelatedDeeper(g: seq<BtfType>, h: seq<BtfType>, r: (Id, Id) -> bool, k: nat)
    requires Bisimilar(g, h, r) && RelatedAgree(g, h, r, k)
    ensures RelatedAgree(g, h, r, k + 1)
  {
    forall a: Id, b: Id | r(a, b)
      ensures Unfold(g, a, k + 1) == Unfold(h, b, k + 1)
    {
      hide *;
      BisimilarStep(g, h, r, a, b, k);
    }
  }

  lemma {:induction false} BisimilarAgree(g: seq<BtfType>, h: seq<BtfType>, r: (Id, Id) -> bool, k: nat)
    requires Bisimilar(g, h, r)
    ensures RelatedAgree(g, h, r, k)
  {
    hide *;
    if k == 0 {
      RelatedAtZero(g, h, r);
    } else {
      BisimilarAgree(g, h, r, k - 1);
      RelatedDeeper(g, h, r, k - 1);
    }
  }

  /** Conversely, what such a relation relates means the same. */
  lemma BisimilarIsAlike(g: seq<BtfType>, h: seq<BtfType>, r: (Id, Id) -> bool, x: Id, y: Id)
    requires Bisimilar(g, h, r) && r(x, y)
    ensures Alike(g, x, h, y)
  {
    hide Bisimilar, Unfold;
    forall k: nat
      ensures Unfold(g, x, k) == Unfold(h, y, k)
    {
      BisimilarAgree(g, h, r, k);
    }
  }

  /** All references point inside the graph, and id 0 is void. */
  ghost predicate Closed(g: seq<BtfType>) {
    && |g| > 0 && g[0] == VOID
    && (forall x :: 0 <= x < |g| ==> WellFormed(g[x]))
    && (forall x, i :: 0 <= x < |g| && 0 <= i < |Refs(g[x])| ==> Refs(g[x])[i] < |g|)
  }
}
