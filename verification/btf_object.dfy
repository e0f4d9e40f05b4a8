/** btf__dedup as a whole: strings first, then types. */
module BtfObject {
  import opened BtfTypes
  import opened BtfStrings
  import CanonMap
  import DedupEquiv
  import DedupMerge
  import DedupEnums
  import DedupResult
  import DedupState
  import BtfDedup

  /** The name offsets of a payload. */
  function PayloadNames(p: Payload): seq<nat> {
    match p
    case Members(ms) => seq(|ms|, i requires 0 <= i < |ms| => ms[i].nameOff)
    case Enumerators(es) => seq(|es|, i requires 0 <= i < |es| => es[i].nameOff)
    case Params(ps) => seq(|ps|, i requires 0 <= i < |ps| => ps[i].nameOff)
    case _ => []
  }

  /** All places of a descriptor that refer to the string section. */
  function Names(t: BtfType): (ns: seq<nat>)
    ensures |ns| > 0
  {
    [t.nameOff] + PayloadNames(t.payload)
  }

  function SetPayloadNames(p: Payload, ns: seq<nat>): (q: Payload)
    requires |ns| == |PayloadNames(p)|
    ensures PayloadNames(q) == ns && PayloadRefs(q) == PayloadRefs(p)
  {
    match p
    case Members(ms) => Members(seq(|ms|, i requires 0 <= i < |ms| => ms[i].(nameOff := ns[i])))
    case Enumerators(es) => Enumerators(seq(|es|, i requires 0 <= i < |es| => es[i].(nameOff := ns[i])))
    case Params(ps) => Params(seq(|ps|, i requires 0 <= i < |ps| => ps[i].(nameOff := ns[i])))
    case _ => p
  }

  function SetNames(t: BtfType, ns: seq<nat>): (u: BtfType)
    requires |ns| == |Names(t)|
    ensures Names(u) == ns && Refs(u) == Refs(t)
    ensures WellFormed(t) ==> WellFormed(u)
  {
    var u := t.(nameOff := ns[0], payload := SetPayloadNames(t.payload, ns[1..]));
    assert Names(u) == [ns[0]] + ns[1..];
    u
  }

  /** Field by field: all names of the descriptor, its own and those of members,
      enumerators and parameters, satisfy p. */
  ghost predicate EveryName(t: BtfType, p: nat -> bool) {
    && p(t.nameOff)
    && match t.payload
       case Members(ms) => forall i :: 0 <= i < |ms| ==> p(ms[i].nameOff)
       case Enumerators(es) => forall i :: 0 <= i < |es| ==> p(es[i].nameOff)
       case Params(ps) => forall i :: 0 <= i < |ps| ==> p(ps[i].nameOff)
       case _ => true
  }

  lemma EveryNameIs(t: BtfType, p: nat -> bool)
    ensures EveryName(t, p) <==> forall i :: 0 <= i < |Names(t)| ==> p(Names(t)[i])
  {
    var ns, qs := Names(t), PayloadNames(t.payload);
    assert ns[0] == t.nameOff && forall i :: 0 <= i < |qs| ==> ns[i + 1] == qs[i];
    if EveryName(t, p) {
      forall i | 0 <= i < |ns|
        ensures p(ns[i])
      {
        assert i > 0 ==> ns[i] == qs[i - 1];
      }
    }
    if forall i :: 0 <= i < |ns| ==> p(ns[i]) {
      assert forall i :: 0 <= i < |qs| ==> p(qs[i]);
      match t.payload
      case Members(ms) => assert forall i :: 0 <= i < |ms| ==> ms[i].nameOff == qs[i];
      case Enumerators(es) => assert forall i :: 0 <= i < |es| ==> es[i].nameOff == qs[i];
      case Params(ps) => assert forall i :: 0 <= i < |ps| ==> ps[i].nameOff == qs[i];
      case _ =>
    }
  }

  /** Some name of the descriptor is w. */
  ghost predicate HasName(t: BtfType, w: nat) {
    !EveryName(t, n => n != w)
  }

  lemma HasNameIs(t: BtfType, w: nat)
    ensures HasName(t, w) <==> w in Names(t)
  {
    EveryNameIs(t, n => n != w);
  }

  /** Field by field: every name of t has in section d the text that u's has in e,
      and all else but type ids is the same. */
  ghost predicate FieldsKept(d: seq<char>, t: BtfType, e: seq<char>, u: BtfType) {
    && Text(e, u.nameOff) == Text(d, t.nameOff) && u.info == t.info
    && (t.info.kind in {Ptr, Const, Volatile, Restrict, Typedef, Func, FuncProto, Var} || u.size == t.size)
    && PayloadKept(d, t.payload, e, u.payload)
  }

  ghost predicate PayloadKept(d: seq<char>, p: Payload, e: seq<char>, q: Payload) {
    match p
    case Members(ms) =>
      && q.Members? && |q.members| == |ms|
      && forall i :: 0 <= i < |ms| ==>
           Text(e, q.members[i].nameOff) == Text(d, ms[i].nameOff) && q.members[i].offset == ms[i].offset
    case Enumerators(es) =>
      && q.Enumerators? && |q.enumerators| == |es|
      && forall i :: 0 <= i < |es| ==>
           Text(e, q.enumerators[i].nameOff) == Text(d, es[i].nameOff) && q.enumerators[i].val == es[i].val
    case Params(ps) =>
      && q.Params? && |q.params| == |ps|
      && forall i :: 0 <= i < |ps| ==> Text(e, q.params[i].nameOff) == Text(d, ps[i].nameOff)
    case ArrayData(_, _, nelems) => q.ArrayData? && q.nelems == nelems
    case SecInfos(vs) =>
      && q.SecInfos? && |q.infos| == |vs|
      && forall i :: 0 <= i < |vs| ==> q.infos[i].offset == vs[i].offset && q.infos[i].size == vs[i].size
    case _ => q == p
  }

  /** Field by field: names moved to another section, and nothing else changed. */
  ghost predicate TextsKept(d: seq<char>, t: BtfType, e: seq<char>, u: BtfType) {
    FieldsKept(d, t, e, u) && IdsMapped(x => x, t, u)
  }

  ghost function PayloadTexts(data: seq<char>, p: Payload): seq<string> {
    seq(|PayloadNames(p)|, i requires 0 <= i < |PayloadNames(p)| => Text(data, PayloadNames(p)[i]))
  }

  function BarePayload(p: Payload): Payload {
    var q := SetPayloadRefs(p, Zeros(|PayloadRefs(p)|));
    SetPayloadNames(q, Zeros(|PayloadNames(q)|))
  }

  lemma PayloadTextAt(data: seq<char>, p: Payload)
    ensures |PayloadTexts(data, p)| == |PayloadNames(p)|
    ensures match p
            case Members(ms) => |PayloadTexts(data, p)| == |ms| && forall i :: 0 <= i < |ms| ==>
                                  PayloadTexts(data, p)[i] == Text(data, ms[i].nameOff)
            case Enumerators(es) => |PayloadTexts(data, p)| == |es| && forall i :: 0 <= i < |es| ==>
                                      PayloadTexts(data, p)[i] == Text(data, es[i].nameOff)
            case Params(ps) => |PayloadTexts(data, p)| == |ps| && forall i :: 0 <= i < |ps| ==>
                                 PayloadTexts(data, p)[i] == Text(data, ps[i].nameOff)
            case _ => PayloadTexts(data, p) == []
  {
    hide Text;
  }

  lemma PayloadByTexts(d: seq<char>, p: Payload, e: seq<char>, q: Payload)
    ensures BarePayload(p) == BarePayload(q) && PayloadTexts(d, p) == PayloadTexts(e, q) <==> PayloadKept(d, p, e, q)
  {
    PayloadTextAt(d, p);
    PayloadTextAt(e, q);
    var a, b := BarePayload(p), BarePayload(q);
    hide Text, PayloadTexts;
    if a == b && PayloadTexts(d, p) == PayloadTexts(e, q) {
      match p
      case Members(ms) =>
        assert forall i :: 0 <= i < |ms| ==> a.members[i].offset == ms[i].offset;
        assert forall i :: 0 <= i < |ms| ==> b.members[i].offset == q.members[i].offset;
      case Enumerators(es) =>
        assert forall i :: 0 <= i < |es| ==> a.enumerators[i].val == es[i].val;
        assert forall i :: 0 <= i < |es| ==> b.enumerators[i].val == q.enumerators[i].val;
      case SecInfos(vs) =>
        assert forall i :: 0 <= i < |vs| ==> a.infos[i].offset == vs[i].offset && a.infos[i].size == vs[i].size;
        assert forall i :: 0 <= i < |vs| ==>
                             b.infos[i].offset == q.infos[i].offset && b.infos[i].size == q.infos[i].size;
      case _ =>
    }
    if PayloadKept(d, p, e, q) {
      assert PayloadTexts(d, p) == PayloadTexts(e, q);
      match p
      case Members(ms) => assert a.members == b.members;
      case Enumerators(es) => assert a.enumerators == b.enumerators;
      case Params(ps) => assert a.params == b.params;
      case SecInfos(vs) => assert a.infos == b.infos;
      case _ =>
    }
  }

  lemma BareParts(t: BtfType)
    ensures Bare(t) == t.(nameOff := 0, size := if HeaderRefs(t.info.kind) then 0 else t.size,
                          payload := BarePayload(t.payload))
  {
    LabelParts(t);
    var l := Label(t);
    assert seq(|Names(l)|, _ => 0)[1..] == Zeros(|PayloadNames(l.payload)|);
  }

  lemma TextsParts(data: seq<char>, t: BtfType)
    ensures Texts(data, t) == [Text(data, t.nameOff)] + PayloadTexts(data, t.payload)
  {
    hide Text;
    var a := [Text(data, t.nameOff)] + PayloadTexts(data, t.payload);
    assert |a| == |Names(t)|;
    forall i | 0 <= i < |a|
      ensures Texts(data, t)[i] == a[i]
    {
    }
  }

  /** What is bare of a descriptor and the texts of its names are all fields but ids. */
  lemma TextsByFields(d: seq<char>, t: BtfType, e: seq<char>, u: BtfType)
    ensures Bare(t) == Bare(u) && Texts(d, t) == Texts(e, u) <==> FieldsKept(d, t, e, u)
  {
    BareParts(t);
    BareParts(u);
    TextsParts(d, t);
    TextsParts(e, u);
    PayloadByTexts(d, t.payload, e, u.payload);
    hide Bare, Texts, PayloadTexts, BarePayload, PayloadKept, Text;
    assert Texts(d, t) == Texts(e, u) <==>
           Text(d, t.nameOff) == Text(e, u.nameOff) && PayloadTexts(d, t.payload) == PayloadTexts(e, u.payload) by {
      assert Texts(d, t)[0] == Text(d, t.nameOff) && Texts(e, u)[0] == Text(e, u.nameOff);
      assert Texts(d, t)[1..] == PayloadTexts(d, t.payload) && Texts(e, u)[1..] == PayloadTexts(e, u.payload);
    }
  }

  lemma RenamedByFields(d: seq<char>, t: BtfType, e: seq<char>, u: BtfType)
    requires Renamed(d, t, e, u)
    ensures TextsKept(d, t, e, u)
  {
    TextsByFields(d, t, e, u);
    assert SameShape(t.payload, u.payload);
    hide Bare, Texts, FieldsKept, Refs, IdsPaired;
    SameInfo(t, u);
    RefsByFields((a: Id, b: Id) => b == (x => x)(a), t, u);
  }

  /** Moving names and then renumbering ids. */
  lemma KeptThenRenumbered(d: seq<char>, t: BtfType, e: seq<char>, u: BtfType, newId: Id -> Id, v: BtfType)
    requires TextsKept(d, t, e, u) && IdsRenumbered(newId, u, v)
    ensures FieldsKept(d, t, e, v) && IdsMapped(newId, t, v)
  {
    hide Text;
  }

  /** A descriptor without names and references. */
  function Bare(t: BtfType): BtfType {
    var l := Label(t);
    SetNames(l, seq(|Names(l)|, _ => 0))
  }

  lemma LabelKeepsNames(t: BtfType)
    ensures Names(Label(t)) == Names(t)
  {
    var l := Label(t);
    assert PayloadNames(l.payload) == PayloadNames(t.payload);
  }

  lemma BareRenamed(t: BtfType, ns: seq<nat>)
    requires |ns| == |Names(t)|
    ensures Bare(SetNames(t, ns)) == Bare(t)
  {
    var a, b := Bare(SetNames(t, ns)), Bare(t);
    LabelKeepsNames(t);
    LabelKeepsNames(SetNames(t, ns));
    match t.payload
    case Members(ms) => assert a.payload.members == b.payload.members;
    case Enumerators(es) => assert a.payload.enumerators == b.payload.enumerators;
    case Params(ps) => assert a.payload.params == b.payload.params;
    case _ =>
  }

  /** What a type looks like down to a depth, with names read as text. */
  datatype TextTree = TextCut | TextNode(shape: BtfType, names: seq<string>, kids: seq<TextTree>)

  ghost function Texts(data: seq<char>, t: BtfType): seq<string> {
    seq(|Names(t)|, i requires 0 <= i < |Names(t)| => Text(data, Names(t)[i]))
  }

  ghost function TextUnfold(data: seq<char>, g: seq<BtfType>, x: Id, k: nat): TextTree
    decreases k
  {
    if k == 0 || x >= |g| then TextCut
    else TextNode(Bare(g[x]), Texts(data, g[x]),
                  seq(|Refs(g[x])|, i requires 0 <= i < |Refs(g[x])| => TextUnfold(data, g, Refs(g[x])[i], k - 1)))
  }

  /** Two types, each with its string section, are the same C type. */
  ghost predicate TextAlike(d: seq<char>, g: seq<BtfType>, x: Id, e: seq<char>, h: seq<BtfType>, y: Id) {
    forall k: nat :: TextUnfold(d, g, x, k) == TextUnfold(e, h, y, k)
  }

  lemma TextStep(d: seq<char>, g: seq<BtfType>, x: Id, e: seq<char>, h: seq<BtfType>, y: Id, k: nat)
    requires x < |g| && y < |h| && Bare(g[x]) == Bare(h[y]) && Texts(d, g[x]) == Texts(e, h[y])
    requires |Refs(g[x])| == |Refs(h[y])|
    requires forall i ::
               0 <= i < |Refs(g[x])| ==> TextUnfold(d, g, Refs(g[x])[i], k) == TextUnfold(e, h, Refs(h[y])[i], k)
    ensures TextUnfold(d, g, x, k + 1) == TextUnfold(e, h, y, k + 1)
  {
    var a, b := TextUnfold(d, g, x, k + 1), TextUnfold(e, h, y, k + 1);
    assert a.kids == b.kids;
  }

  lemma TextAlikeParts(d: seq<char>, g: seq<BtfType>, x: Id, e: seq<char>, h: seq<BtfType>, y: Id)
    requires x < |g| && y < |h| && TextAlike(d, g, x, e, h, y)
    ensures Bare(g[x]) == Bare(h[y]) && Texts(d, g[x]) == Texts(e, h[y]) && |Refs(g[x])| == |Refs(h[y])|
    ensures forall i :: 0 <= i < |Refs(g[x])| ==> TextAlike(d, g, Refs(g[x])[i], e, h, Refs(h[y])[i])
  {
    hide Bare, Texts, Refs;
    assert TextUnfold(d, g, x, 1) == TextUnfold(e, h, y, 1);
    assert |TextUnfold(d, g, x, 1).kids| == |TextUnfold(e, h, y, 1).kids|;
    forall i, k: nat | 0 <= i < |Refs(g[x])|
      ensures TextUnfold(d, g, Refs(g[x])[i], k) == TextUnfold(e, h, Refs(h[y])[i], k)
    {
      assert TextUnfold(d, g, x, k + 1) == TextUnfold(e, h, y, k + 1);
      assert TextUnfold(d, g, x, k + 1).kids[i] == TextUnfold(e, h, y, k + 1).kids[i];
    }
  }

  /** The same C type: all fields but ids agree, with names read as text, and the ids
      in the same fields are the same C types. */
  lemma TextAlikeByFields(d: seq<char>, g: seq<BtfType>, x: Id, e: seq<char>, h: seq<BtfType>, y: Id)
    requires x < |g| && y < |h| && TextAlike(d, g, x, e, h, y)
    ensures FieldsKept(d, g[x], e, h[y])
    ensures IdsPaired((a: Id, b: Id) => TextAlike(d, g, a, e, h, b), g[x], h[y])
  {
    hide TextAlike, Bare, Texts, Refs, FieldsKept, IdsPaired, Label, SameShape;
    TextAlikeParts(d, g, x, e, h, y);
    TextsByFields(d, g[x], e, h[y]);
    SameInfo(g[x], h[y]);
    RefsByFields((a: Id, b: Id) => TextAlike(d, g, a, e, h, b), g[x], h[y]);
  }

  lemma SameInfo(t: BtfType, u: BtfType)
    requires Bare(t) == Bare(u)
    ensures t.info == u.info && SameShape(t.payload, u.payload)
  {
    assert Bare(t).info == t.info && Bare(u).info == u.info;
  }

  lemma LabelTexts(d: seq<char>, t: BtfType, u: BtfType)
    requires Label(t) == Label(u)
    ensures Bare(t) == Bare(u) && Texts(d, t) == Texts(d, u)
  {
    LabelKeepsNames(t);
    LabelKeepsNames(u);
  }

  ghost predicate TextFollows(d: seq<char>, g: seq<BtfType>, h: seq<BtfType>, k: nat) {
    forall x: Id, y: Id {:trigger Alike(g, x, h, y)} ::
      x < |g| && y < |h| && Alike(g, x, h, y) ==> TextUnfold(d, g, x, k) == TextUnfold(d, h, y, k)
  }

  lemma TextFollowsStep(d: seq<char>, g: seq<BtfType>, x: Id, h: seq<BtfType>, y: Id, k: nat)
    requires x < |g| && y < |h| && Alike(g, x, h, y) && Closed(g) && Closed(h)
    requires TextFollows(d, g, h, k)
    ensures TextUnfold(d, g, x, k + 1) == TextUnfold(d, h, y, k + 1)
  {
    AlikeParts(g, x, h, y);
    LabelTexts(d, g[x], h[y]);
    forall i | 0 <= i < |Refs(g[x])|
      ensures TextUnfold(d, g, Refs(g[x])[i], k) == TextUnfold(d, h, Refs(h[y])[i], k)
    {
      assert Alike(g, Refs(g[x])[i], h, Refs(h[y])[i]);
    }
    hide Label, Bare, Texts, Unfold, Alike, TextFollows;
    TextStep(d, g, x, d, h, y, k);
  }

  /** Same meaning over one string section is the same C type. */
  lemma {:induction false} AlikeTextUnfold(d: seq<char>, g: seq<BtfType>, h: seq<BtfType>, k: nat)
    requires Closed(g) && Closed(h)
    ensures TextFollows(d, g, h, k)
  {
    hide Label, Bare, Texts, Unfold, Alike, Closed;
    if k > 0 {
      AlikeTextUnfold(d, g, h, k - 1);
      forall x: Id, y: Id | x < |g| && y < |h| && Alike(g, x, h, y)
        ensures TextUnfold(d, g, x, k) == TextUnfold(d, h, y, k)
      {
        TextFollowsStep(d, g, x, h, y, k - 1);
      }
    }
  }

  /** One descriptor with its names moved to another section. */
  ghost predicate Renamed(d: seq<char>, t: BtfType, e: seq<char>, u: BtfType) {
    Bare(t) == Bare(u) && Texts(d, t) == Texts(e, u) && Refs(t) == Refs(u)
  }

  lemma {:induction false} RenamedTextUnfold(d: seq<char>, g: seq<BtfType>, e: seq<char>, h: seq<BtfType>, k: nat)
    requires |g| == |h| && forall x :: 0 <= x < |g| ==> Renamed(d, g[x], e, h[x])
    ensures forall x: Id :: TextUnfold(d, g, x, k) == TextUnfold(e, h, x, k)
  {
    hide Label, Bare, Texts, Refs, Names;
    if k > 0 {
      RenamedTextUnfold(d, g, e, h, k - 1);
      forall x: Id
        ensures TextUnfold(d, g, x, k) == TextUnfold(e, h, x, k)
      {
        if x < |g| {
          assert Renamed(d, g[x], e, h[x]);
          TextStep(d, g, x, e, h, x, k - 1);
        }
      }
    }
  }

  /** Moving names, then deduplicating types, keeps every C type. */
  lemma StringsThenTypes(d: seq<char>, g: seq<BtfType>, e: seq<char>, h: seq<BtfType>, x: Id, out: seq<BtfType>, y: Id)
    requires |g| == |h| && forall z :: 0 <= z < |g| ==> Renamed(d, g[z], e, h[z])
    requires Closed(h) && Closed(out) && x < |h| && y < |out| && Alike(h, x, out, y)
    ensures TextAlike(d, g, x, e, out, y)
  {
    forall k: nat
      ensures TextUnfold(d, g, x, k) == TextUnfold(e, out, y, k)
    {
      RenamedTextUnfold(d, g, e, h, k);
      AlikeTextUnfold(e, h, out, k);
    }
  }

  /* Names and meaning decide each other where the text tells the string. */

  lemma SetPayloadNamesTwice(p: Payload, ns: seq<nat>, qs: seq<nat>)
    requires |ns| == |qs| == |PayloadNames(p)|
    ensures SetPayloadNames(SetPayloadNames(p, ns), qs) == SetPayloadNames(p, qs)
    ensures SetPayloadNames(p, PayloadNames(p)) == p
  {
    var a, b, c := SetPayloadNames(SetPayloadNames(p, ns), qs), SetPayloadNames(p, qs),
        SetPayloadNames(p, PayloadNames(p));
    match p
    case Members(ms) => assert a.members == b.members && c.members == ms;
    case Enumerators(es) => assert a.enumerators == b.enumerators && c.enumerators == es;
    case Params(ps) => assert a.params == b.params && c.params == ps;
    case _ =>
  }

  /** A label is what is bare of it, and its names. */
  lemma LabelIs(t: BtfType)
    ensures |Names(Bare(t))| == |Names(t)| && Label(t) == SetNames(Bare(t), Names(t))
  {
    var l := Label(t);
    LabelKeepsNames(t);
    SetPayloadNamesTwice(l.payload, seq(|Names(l)|, _ => 0)[1..], Names(l)[1..]);
    assert Names(l)[1..] == PayloadNames(l.payload);
  }

  /** All names of a type start a string. */
  ghost predicate NamesAtStarts(data: seq<char>, t: BtfType) {
    forall i :: 0 <= i < |Names(t)| ==> IsStart(data, Names(t)[i])
  }

  /** No two strings of the section have the same text. */
  ghost predicate TextTells(data: seq<char>) {
    forall a: nat, b: nat :: IsStart(data, a) && IsStart(data, b) && Text(data, a) == Text(data, b) ==> a == b
  }

  lemma LabelFromText(e: seq<char>, t: BtfType, u: BtfType)
    requires TextTells(e) && NamesAtStarts(e, t) && NamesAtStarts(e, u)
    requires Bare(t) == Bare(u) && Texts(e, t) == Texts(e, u)
    ensures Label(t) == Label(u)
  {
    LabelIs(t);
    LabelIs(u);
    var ns, qs := Names(t), Names(u);
    assert |Texts(e, t)| == |ns| && |Texts(e, u)| == |qs|;
    forall i | 0 <= i < |ns|
      ensures ns[i] == qs[i]
    {
      assert Texts(e, t)[i] == Text(e, ns[i]) && Texts(e, u)[i] == Text(e, qs[i]);
    }
    assert ns == qs;
  }

  /** Types that look the same with names read as text look the same. */
  lemma {:induction false} UnfoldFromText(e: seq<char>, g: seq<BtfType>, x: Id, y: Id, k: nat)
    requires Closed(g) && TextTells(e) && (forall z :: 0 <= z < |g| ==> NamesAtStarts(e, g[z])) && x < |g| && y < |g|
    requires TextUnfold(e, g, x, k) == TextUnfold(e, g, y, k)
    ensures Unfold(g, x, k) == Unfold(g, y, k)
    decreases k
  {
    hide TextTells, NamesAtStarts, Label, Refs, Bare, Texts;
    if k > 0 {
      var a, b := TextUnfold(e, g, x, k), TextUnfold(e, g, y, k);
      assert |a.kids| == |Refs(g[x])| && |b.kids| == |Refs(g[y])|;
      LabelFromText(e, g[x], g[y]);
      forall i | 0 <= i < |Refs(g[x])|
        ensures Unfold(g, Refs(g[x])[i], k - 1) == Unfold(g, Refs(g[y])[i], k - 1)
      {
        assert a.kids[i] == b.kids[i];
        UnfoldFromText(e, g, Refs(g[x])[i], Refs(g[y])[i], k - 1);
      }
      UnfoldStep(g, x, g, y, k - 1);
    }
  }

  lemma AlikeFromText(e: seq<char>, g: seq<BtfType>, x: Id, y: Id)
    requires Closed(g) && TextTells(e) && (forall z :: 0 <= z < |g| ==> NamesAtStarts(e, g[z])) && x < |g| && y < |g|
    requires TextAlike(e, g, x, e, g, y)
    ensures Alike(g, x, g, y)
  {
    forall k: nat
      ensures Unfold(g, x, k) == Unfold(g, y, k)
    {
      assert TextUnfold(e, g, x, k) == TextUnfold(e, g, y, k);
      UnfoldFromText(e, g, x, y, k);
    }
  }

  /** A compilation unit, with names read as text: closed under references, and no
      two types in it are the same C type. */
  ghost predicate TextUnit(d: seq<char>, g: seq<BtfType>, cu: set<Id>) {
    && (forall x :: x in cu ==> x < |g| && forall i :: 0 <= i < |Refs(g[x])| ==> Refs(g[x])[i] in cu)
    && (forall x: Id, y: Id {:trigger TextAlike(d, g, x, d, g, y)} ::
          x in cu && y in cu && TextAlike(d, g, x, d, g, y) ==> x == y)
  }

  ghost predicate InTextUnit(d: seq<char>, g: seq<BtfType>, x: Id) {
    exists cu: set<Id> :: x in cu && TextUnit(d, g, cu)
  }

  ghost predicate MadeOfTextUnits(d: seq<char>, g: seq<BtfType>) {
    forall x: Id :: x < |g| && IsComposite(g[x].info.kind) ==> InTextUnit(d, g, x)
  }

  /** No two types but variables and sections are the same C type. */
  ghost predicate TextMinimal(e: seq<char>, out: seq<BtfType>) {
    forall i: Id, j: Id ::
      i < |out| && j < |out| && i != j && out[i].info.kind != Var && out[i].info.kind != DataSec ==>
                             !TextAlike(e, out, i, e, out, j)
  }

  /** Units stay units when their names move to another section. */
  lemma UnitRenamed(d: seq<char>, g: seq<BtfType>, e: seq<char>, h: seq<BtfType>, cu: set<Id>)
    requires |g| == |h| && Closed(h) && forall x :: 0 <= x < |g| ==> Renamed(d, g[x], e, h[x])
    requires TextUnit(d, g, cu)
    ensures DedupEquiv.Unit(h, cu)
  {
    hide TextAlike, Alike, Renamed, Closed, Refs;
    forall x | x in cu
      ensures x < |h| && forall i :: 0 <= i < |Refs(h[x])| ==> Refs(h[x])[i] in cu
    {
      RenamedSame(d, g[x], e, h[x]);
    }
    forall x: Id, y: Id | x in cu && y in cu && Alike(h, x, h, y)
      ensures x == y
    {
      SameText(d, g, e, h, x, y);
    }
  }

  lemma RenamedSame(d: seq<char>, t: BtfType, e: seq<char>, u: BtfType)
    requires Renamed(d, t, e, u)
    ensures Refs(t) == Refs(u) && t.info == u.info
  {
    SameInfo(t, u);
  }

  lemma SameText(d: seq<char>, g: seq<BtfType>, e: seq<char>, h: seq<BtfType>, x: Id, y: Id)
    requires |g| == |h| && Closed(h) && forall z :: 0 <= z < |g| ==> Renamed(d, g[z], e, h[z])
    requires x < |h| && y < |h| && Alike(h, x, h, y)
    ensures TextAlike(d, g, x, d, g, y)
  {
    hide Renamed;
    forall k: nat
      ensures TextUnfold(d, g, x, k) == TextUnfold(d, g, y, k)
    {
      RenamedTextUnfold(d, g, e, h, k);
      AlikeTextUnfold(e, h, h, k);
      assert TextUnfold(e, h, x, k) == TextUnfold(e, h, y, k);
    }
  }

  /** What the string pass leaves as it was about the graph. */
  lemma GraphRenamed(d: seq<char>, g: seq<BtfType>, e: seq<char>, h: seq<BtfType>)
    requires |g| == |h| && Closed(h) && forall x :: 0 <= x < |g| ==> Renamed(d, g[x], e, h[x])
    ensures MadeOfTextUnits(d, g) ==> DedupResult.MadeOfUnits(h)
    ensures DedupEquiv.OrdinaryRefs(g) <==> DedupEquiv.OrdinaryRefs(h)
    ensures DedupEquiv.KnownKinds(g) <==> DedupEquiv.KnownKinds(h)
    ensures DedupEquiv.NoForwards(g) <==> DedupEquiv.NoForwards(h)
    ensures DedupState.NoRefCycles(g) <==> DedupState.NoRefCycles(h)
  {
    hide Renamed, Closed, Refs, TextUnit, DedupEquiv.Unit;
    forall x | 0 <= x < |g|
      ensures Refs(g[x]) == Refs(h[x]) && g[x].info == h[x].info
    {
      RenamedSame(d, g[x], e, h[x]);
    }
    if MadeOfTextUnits(d, g) {
      forall x: Id | x < |h| && IsComposite(h[x].info.kind)
        ensures DedupResult.InUnit(h, x)
      {
        assert InTextUnit(d, g, x);
        var cu: set<Id> :| x in cu && TextUnit(d, g, cu);
        UnitRenamed(d, g, e, h, cu);
      }
    }
    SameChains(g, h);
  }

  lemma SameChains(g: seq<BtfType>, h: seq<BtfType>)
    requires |g| == |h| && forall x :: 0 <= x < |g| ==> Refs(g[x]) == Refs(h[x]) && g[x].info == h[x].info
    ensures DedupState.NoRefCycles(g) <==> DedupState.NoRefCycles(h)
  {
    hide Refs;
    forall x: Id, f: nat
      ensures DedupState.RefEnds(g, x, f) == DedupState.RefEnds(h, x, f)
    {
      SameEnds(g, h, x, f);
    }
    forall x: Id
      ensures DedupState.ChainEnds(g, x) <==> DedupState.ChainEnds(h, x)
    {
    }
  }

  lemma {:induction false} SameEnds(g: seq<BtfType>, h: seq<BtfType>, x: Id, f: nat)
    requires |g| == |h| && forall x :: 0 <= x < |g| ==> Refs(g[x]) == Refs(h[x]) && g[x].info == h[x].info
    ensures DedupState.RefEnds(g, x, f) == DedupState.RefEnds(h, x, f)
    decreases f
  {
    hide Refs;
    if x < |g| && f > 0 {
      forall i | 0 <= i < |Refs(g[x])|
        ensures DedupState.RefEnds(g, Refs(g[x])[i], f - 1) == DedupState.RefEnds(h, Refs(g[x])[i], f - 1)
      {
        SameEnds(g, h, Refs(g[x])[i], f - 1);
      }
    }
  }

  /** Each of the first m ids is the new id of one of the first n. */
  ghost predicate AllNew(newIds: Id -> Id, n: nat, m: nat) {
    forall j: Id :: j < m ==> IsNew(newIds, n, j)
  }

  ghost predicate IsNew(newIds: Id -> Id, n: nat, j: Id) {
    exists x: Id :: x < n && newIds(x) == j
  }

  lemma NewIdsAre(canon: CanonMap.Links, ids: CanonMap.Links, n: nat)
    requires CanonMap.Forest(canon) && |canon| == |ids| && DedupResult.Onto(canon, ids, n)
    ensures forall x: Id :: x < |canon| ==> DedupResult.NewIds(canon, ids)(x) == DedupResult.NewId(canon, ids, x)
    ensures AllNew(DedupResult.NewIds(canon, ids), |canon|, n)
  {
    hide CanonMap.Forest, DedupResult.NewId;
    forall j: Id | j < n
      ensures IsNew(DedupResult.NewIds(canon, ids), |canon|, j)
    {
      assert DedupResult.Comes(canon, ids, j);
      var x: Id :| x < |canon| && DedupResult.NewId(canon, ids, x) == j;
      assert DedupResult.NewIds(canon, ids)(x) == j;
    }
  }

  /** Deduplicated types have the names of types they were made from. */
  lemma NamesCome(e: seq<char>, h: seq<BtfType>, out: seq<BtfType>, newIds: Id -> Id)
    requires forall x :: 0 <= x < |h| ==> NamesAtStarts(e, h[x])
    requires forall x: Id :: x < |h| ==> newIds(x) < |out| && Alike(h, x, out, newIds(x))
    requires AllNew(newIds, |h|, |out|)
    ensures forall j :: 0 <= j < |out| ==> NamesAtStarts(e, out[j])
  {
    forall j: Id | j < |out|
      ensures NamesAtStarts(e, out[j])
    {
      assert IsNew(newIds, |h|, j);
      var x: Id :| x < |h| && newIds(x) == j;
      AlikeParts(h, x, out, j);
      LabelKeepsNames(h[x]);
      LabelKeepsNames(out[j]);
    }
  }

  /** Where the text tells the string, minimal means minimal as text. */
  lemma MinimalAsText(e: seq<char>, out: seq<BtfType>)
    requires Closed(out) && TextTells(e) && DedupResult.Minimal(out)
    requires forall z :: 0 <= z < |out| ==> NamesAtStarts(e, out[z])
    ensures TextMinimal(e, out)
  {
    hide TextTells, NamesAtStarts, Alike, TextAlike, Closed;
    forall i: Id, j: Id | i < |out| && j < |out| && i != j && out[i].info.kind != Var && out[i].info.kind != DataSec
      ensures !TextAlike(e, out, i, e, out, j)
    {
      if TextAlike(e, out, i, e, out, j) {
        AlikeFromText(e, out, i, j);
      }
    }
  }

  datatype Object = Object(section: seq<char>, types: seq<BtfType>, extRefs: seq<nat>)

  /** Every name is empty or at the start of a string. */
  ghost predicate NamesStart(data: seq<char>, t: BtfType) {
    EveryName(t, (n: nat) => n == 0 || IsStart(data, n))
  }

  lemma NamesStartIs(data: seq<char>, t: BtfType)
    ensures NamesStart(data, t) <==> RefsStart(data, Names(t))
  {
    EveryNameIs(t, (n: nat) => n == 0 || IsStart(data, n));
  }

  ghost predicate RefsStart(data: seq<char>, refs: seq<nat>) {
    forall i :: 0 <= i < |refs| ==> refs[i] == 0 || IsStart(data, refs[i])
  }

  /** Some reference of the first n types names this string. */
  ghost predicate NamedBelow(types: seq<BtfType>, n: nat, w: nat) {
    exists x :: 0 <= x < n && x < |types| && HasName(types[x], w)
  }

  /** btf_for_each_str_off with btf_str_mark_as_used: succeeds when every
      reference names a string, and then marks exactly those. */
  method MarkNames(index: StringIndex, types: seq<BtfType>, extRefs: seq<nat>) returns (ok: bool)
    requires index.Marking() && index.wanted == {0} && Closed(types)
    modifies index
    ensures index.Marking()
    ensures ok <==>
              (forall x :: 0 <= x < |types| ==> NamesStart(index.data, types[x])) && RefsStart(index.data, extRefs)
    ensures ok ==> forall w :: w in index.wanted <==> NamedBelow(types, |types|, w) || w in extRefs
  {
    NamedByVoid(types);
    for x := 1 to |types|
      invariant index.Marking()
      invariant forall y :: 0 <= y < x ==> NamesStart(index.data, types[y])
      invariant forall w :: w in index.wanted <==> NamedBelow(types, x, w)
    {
      NamesStartIs(index.data, types[x]);
      ok := index.MarkAll(Names(types[x]));
      if !ok {
        return;
      }
      NamedNext(types, x);
    }
    ok := index.MarkAll(extRefs);
  }

  lemma NamedByVoid(types: seq<BtfType>)
    requires Closed(types)
    ensures forall w: nat :: NamedBelow(types, 1, w) <==> w == 0
    ensures forall data: seq<char> :: NamesStart(data, types[0])
  {
    assert Names(VOID) == [0];
    forall w: nat
      ensures NamedBelow(types, 1, w) <==> w == 0
    {
      HasNameIs(VOID, w);
      assert HasName(types[0], w) <==> w == 0;
    }
  }

  lemma NamedNext(types: seq<BtfType>, x: nat)
    requires x < |types|
    ensures forall w: nat :: NamedBelow(types, x + 1, w) <==> NamedBelow(types, x, w) || w in Names(types[x])
  {
    hide HasName, Names;
    forall w: nat
      ensures HasName(types[x], w) <==> w in Names(types[x])
    {
      HasNameIs(types[x], w);
    }
  }

  /** btf_for_each_str_off with btf_str_remap_offset, over the types. */
  method RenameTypes(index: StringIndex, types: seq<BtfType>) returns (out: seq<BtfType>)
    requires index.Rewritten() && Closed(types)
    requires forall w :: NamedBelow(types, |types|, w) ==> w in index.wanted
    ensures |out| == |types| && Closed(out)
    ensures forall x ::
              0 <= x < |types| ==>
                Renamed(index.data, types[x], index.section, out[x]) && NamesAtStarts(index.section, out[x])
    ensures forall x :: 0 <= x < |types| ==> TextsKept(index.data, types[x], index.section, out[x])
  {
    hide Bare, Texts, Refs, Names, Text, PlacedAt, Renamed, StringIndex.Rewritten, NamedBelow, SetNames, NamesAtStarts,
         TextsKept;
    VoidRenamed(index);
    out := [types[0]];
    for x := 1 to |types|
      invariant |out| == x && out[0] == VOID
      invariant forall y :: 0 <= y < x ==> Renamed(index.data, types[y], index.section, out[y]) && WellFormed(out[y])
      invariant forall y :: 0 <= y < x ==> NamesAtStarts(index.section, out[y])
      invariant forall y :: 0 <= y < x ==> TextsKept(index.data, types[y], index.section, out[y])
    {
      NamedHere(types, x);
      var ns := index.RemapAll(Names(types[x]));
      RenamedBy(index.data, types[x], index.section, ns);
      out := out + [SetNames(types[x], ns)];
    }
    RenamedClosed(index.data, types, index.section, out);
  }

  lemma NamedHere(types: seq<BtfType>, x: nat)
    requires x < |types|
    ensures forall i :: 0 <= i < |Names(types[x])| ==> NamedBelow(types, |types|, Names(types[x])[i])
  {
    hide HasName, Names;
    forall i | 0 <= i < |Names(types[x])|
      ensures HasName(types[x], Names(types[x])[i])
    {
      HasNameIs(types[x], Names(types[x])[i]);
    }
  }

  lemma RenamedClosed(d: seq<char>, g: seq<BtfType>, e: seq<char>, h: seq<BtfType>)
    requires Closed(g) && |g| == |h| && h[0] == VOID
    requires forall x :: 0 <= x < |g| ==> Renamed(d, g[x], e, h[x]) && WellFormed(h[x])
    ensures Closed(h)
  {
    hide Bare, Texts, Refs;
    assert forall x :: 0 <= x < |g| ==> Renamed(d, g[x], e, h[x]) && Refs(h[x]) == Refs(g[x]);
  }

  lemma RenamedBy(d: seq<char>, t: BtfType, e: seq<char>, ns: seq<nat>)
    requires |ns| == |Names(t)|
    requires forall i :: 0 <= i < |ns| ==> PlacedAt(e, ns[i], Text(d, Names(t)[i]))
    ensures Renamed(d, t, e, SetNames(t, ns)) && NamesAtStarts(e, SetNames(t, ns))
    ensures TextsKept(d, t, e, SetNames(t, ns))
  {
    BareRenamed(t, ns);
    assert Texts(d, t) == Texts(e, SetNames(t, ns));
    RenamedByFields(d, t, e, SetNames(t, ns));
  }

  lemma VoidRenamed(index: StringIndex)
    requires index.Rewritten()
    ensures Renamed(index.data, VOID, index.section, VOID) && NamesAtStarts(index.section, VOID)
    ensures TextsKept(index.data, VOID, index.section, VOID)
  {
    LayoutAt(index.emitted, 0);
    assert index.emitted[..0] == [];
    assert Text(index.section, 0) == [];
    assert Text(index.data, 0) == [];
    assert Names(VOID) == [0];
    assert Texts(index.data, VOID) == Texts(index.section, VOID);
  }

  /** What the string pass has done: the section holds the empty string first,
      then each referenced string once, and nothing else. */
  ghost predicate StringsDeduped(o: Object, section: seq<char>, emitted: seq<string>) {
    && section == Layout(emitted) && Plain(emitted) && Distinct(emitted) && |emitted| > 0 && emitted[0] == []
    && forall k :: 0 <= k < |emitted| ==> ReferencedText(o, emitted[k])
  }

  ghost predicate ReferencedText(o: Object, s: string) {
    exists w :: (NamedBelow(o.types, |o.types|, w) || w in o.extRefs) && Text(o.section, w) == s
  }

  /** Pass 1 of btf__dedup. */
  method DedupStrings(o: Object) returns (ok: bool, out: Object, ghost emitted: seq<string>)
    requires Section(o.section) && Closed(o.types)
    ensures ok <==>
              (forall x :: 0 <= x < |o.types| ==> NamesStart(o.section, o.types[x])) && RefsStart(o.section, o.extRefs)
    ensures ok ==> Closed(out.types) && |out.types| == |o.types| && StringsDeduped(o, out.section, emitted)
    ensures ok ==> forall x :: 0 <= x < |o.types| ==>
                     && Renamed(o.section, o.types[x], out.section, out.types[x])
                     && NamesAtStarts(out.section, out.types[x])
    ensures ok ==> forall x :: 0 <= x < |o.types| ==> TextsKept(o.section, o.types[x], out.section, out.types[x])
    ensures ok ==> |out.extRefs| == |o.extRefs|
    ensures ok ==>
              forall i :: 0 <= i < |o.extRefs| ==> PlacedAt(out.section, out.extRefs[i], Text(o.section, o.extRefs[i]))
  {
    hide Renamed, Closed, NamesStart, Layout, Text, PlacedAt, NamesAtStarts, TextsKept;
    out, emitted := o, [];
    var index := new StringIndex(o.section);
    ok := MarkNames(index, o.types, o.extRefs);
    if ok {
      index.Rewrite();
      emitted := index.emitted;
      var types := RenameTypes(index, o.types);
      var extRefs := index.RemapAll(o.extRefs);
      out := Object(index.section, types, extRefs);
      forall k | 0 <= k < |emitted|
        ensures ReferencedText(o, emitted[k])
      {
        assert index.Wanted(emitted[k]);
      }
    }
  }

  lemma EveryTypeKept(o: Object, named: Object, out: Object, newIds: Id -> Id)
    requires |o.types| == |named.types| && Closed(named.types) && Closed(out.types) && out.section == named.section
    requires forall x :: 0 <= x < |o.types| ==> Renamed(o.section, o.types[x], named.section, named.types[x])
    requires forall x: Id :: x < |o.types| ==> newIds(x) < |out.types| && Alike(named.types, x, out.types, newIds(x))
    ensures forall x: Id :: x < |o.types| ==> TextAlike(o.section, o.types, x, out.section, out.types, newIds(x))
  {
    hide TextAlike, Alike, Renamed, Closed;
    forall x: Id | x < |o.types|
      ensures TextAlike(o.section, o.types, x, out.section, out.types, newIds(x))
    {
      StringsThenTypes(o.section, o.types, out.section, named.types, x, out.types, newIds(x));
    }
  }

  /** Every reference to a string names one. */
  ghost predicate NamesKnown(o: Object) {
    (forall x :: 0 <= x < |o.types| ==> NamesStart(o.section, o.types[x])) && RefsStart(o.section, o.extRefs)
  }

  lemma DistinctTells(o: Object, section: seq<char>, emitted: seq<string>)
    requires StringsDeduped(o, section, emitted)
    ensures TextTells(section)
  {
    forall a: nat, b: nat | IsStart(section, a) && IsStart(section, b) && Text(section, a) == Text(section, b)
      ensures a == b
    {
      TextTellsPlace(emitted, a, b);
    }
  }

  /** No two types of the result are the same C type, if the units had none. */
  lemma DedupIsMinimal(o: Object, named: Object, out: Object, newIds: Id -> Id, emitted: seq<string>)
    requires |o.types| == |named.types| && Closed(named.types) && Closed(out.types) && out.section == named.section
    requires StringsDeduped(o, named.section, emitted)
    requires forall x :: 0 <= x < |o.types| ==> NamesAtStarts(named.section, named.types[x])
    requires forall x: Id :: x < |o.types| ==> newIds(x) < |out.types| && Alike(named.types, x, out.types, newIds(x))
    requires AllNew(newIds, |o.types|, |out.types|)
    requires DedupResult.Minimal(out.types)
    ensures TextMinimal(out.section, out.types)
  {
    hide Alike, Closed, NamesAtStarts, StringsDeduped, DedupResult.Minimal, TextMinimal, TextTells;
    DistinctTells(o, named.section, emitted);
    NamesCome(named.section, named.types, out.types, newIds);
    MinimalAsText(out.section, out.types);
  }

  /** Field by field, a record of the result is one of the given records with the
      texts of its names kept, its ids renumbered, and all else as it was. */
  ghost predicate MadeFromOne(o: Object, out: Object, newIds: Id -> Id, x: Id, j: Id) {
    && x < |o.types| && j < |out.types| && newIds(x) == j
    && FieldsKept(o.section, o.types[x], out.section, out.types[j]) && IdsMapped(newIds, o.types[x], out.types[j])
  }

  ghost predicate MadeFrom(o: Object, out: Object, newIds: Id -> Id) {
    forall j: Id :: j < |out.types| ==> IdsBelow(out.types[j], |out.types|) && MadeFromSome(o, out, newIds, j)
  }

  ghost predicate MadeFromSome(o: Object, out: Object, newIds: Id -> Id, j: Id) {
    exists x: Id :: MadeFromOne(o, out, newIds, x, j)
  }

  ghost predicate RecordFrom(types: seq<BtfType>, out: seq<BtfType>, newIds: Id -> Id, x: Id, j: Id) {
    x < |types| && j < |out| && newIds(x) == j && IdsRenumbered(newIds, types[x], out[j])
  }

  /** Every record of the result is a given one with its ids renumbered. */
  ghost predicate RecordsFrom(types: seq<BtfType>, out: seq<BtfType>, newIds: Id -> Id) {
    forall j: Id :: j < |out| ==> IdsBelow(out[j], |out|) && RecordFromSome(types, out, newIds, j)
  }

  ghost predicate RecordFromSome(types: seq<BtfType>, out: seq<BtfType>, newIds: Id -> Id, j: Id) {
    exists x: Id :: RecordFrom(types, out, newIds, x, j)
  }

  lemma RecordsCome(types: seq<BtfType>, out: seq<BtfType>, canon: CanonMap.Links, ids: CanonMap.Links)
    requires CanonMap.Forest(canon) && |canon| == |ids| == |types| && DedupResult.Onto(canon, ids, |out|)
    requires forall j :: 0 <= j < |out| ==> IdsBelow(out[j], |out|)
    requires forall x: Id :: CanonMap.Canonical(canon, x) ==>
               ids[x] < |out| && IdsRenumbered(DedupResult.NewIds(canon, ids), types[x], out[ids[x]])
    ensures RecordsFrom(types, out, DedupResult.NewIds(canon, ids))
  {
    var newIds := DedupResult.NewIds(canon, ids);
    hide CanonMap.Forest, IdsRenumbered, IdsBelow;
    forall j: Id | j < |out|
      ensures RecordFromSome(types, out, newIds, j)
    {
      assert DedupResult.Comes(canon, ids, j);
      var x: Id :| CanonMap.Canonical(canon, x) && DedupResult.NewId(canon, ids, x) == j;
      CanonMap.RootUnfold(canon, x);
      assert RecordFrom(types, out, newIds, x, j);
    }
  }

  lemma AllMadeFrom(o: Object, named: Object, out: Object, newIds: Id -> Id)
    requires |named.types| == |o.types| && named.section == out.section
    requires forall x :: 0 <= x < |o.types| ==> TextsKept(o.section, o.types[x], named.section, named.types[x])
    requires RecordsFrom(named.types, out.types, newIds)
    ensures MadeFrom(o, out, newIds)
  {
    hide TextsKept, FieldsKept, IdsMapped, IdsRenumbered, IdsBelow;
    forall j: Id | j < |out.types|
      ensures MadeFromSome(o, out, newIds, j)
    {
      assert RecordFromSome(named.types, out.types, newIds, j);
      var x: Id :| RecordFrom(named.types, out.types, newIds, x, j);
      KeptThenRenumbered(o.section, o.types[x], out.section, named.types[x], newIds, out.types[j]);
      assert MadeFromOne(o, out, newIds, x, j);
    }
  }

  /** What a type may be deduplicated to: a forward declaration to what it announces, a
      forward enum to one it may declare, a struct to one of its name, and all else to a
      type that differs in ids only. */
  ghost predicate TextStandIn(d: seq<char>, t: BtfType, e: seq<char>, u: BtfType) {
    && Text(e, u.nameOff) == Text(d, t.nameOff)
    && match t.info.kind
       case Fwd =>
         if u.info.kind == Fwd then u.info.kflag == t.info.kflag
         else u.info.kind == if t.info.kflag then Union else Struct
       case Enum => FieldsKept(d, t, e, u) || Declares(t, u)
       case Struct | Union => u.info.kind == t.info.kind
       case _ => FieldsKept(d, t, e, u)
  }

  /** A forward enum and an enum of its size and signedness. */
  predicate Declares(t: BtfType, u: BtfType) {
    && t.info.kind == Enum && t.info.vlen == 0 && u.info.kind == Enum
    && t.size == u.size && t.info.kflag == u.info.kflag
  }

  lemma KeptThenStandsIn(d: seq<char>, t: BtfType, e: seq<char>, u: BtfType, v: BtfType)
    requires TextsKept(d, t, e, u) && DedupMerge.StandIn(u, v)
    ensures TextStandIn(d, t, e, v)
  {
    hide Text;
  }

  /** With FWD resolution, a forward enum is defined if there is an enum of its name
      that it declares. */
  ghost predicate EnumsDefined(o: Object, out: Object, newIds: Id -> Id) {
    forall f: Id, c: Id :: f < |o.types| && c < |o.types| && newIds(f) < |out.types| ==>
                             DefinedBy(o.section, o.types[f], o.types[c]) ==> out.types[newIds(f)].info.vlen > 0
  }

  ghost predicate DefinedBy(data: seq<char>, t: BtfType, u: BtfType) {
    Declares(t, u) && u.info.vlen > 0 && Text(data, t.nameOff) == Text(data, u.nameOff)
  }

  /** Where the text tells the string, an enum of the name as text is one of the name. */
  lemma DeclaresByName(d: seq<char>, e: seq<char>, t: BtfType, u: BtfType, t': BtfType, u': BtfType)
    requires DefinedBy(d, t, u) && TextsKept(d, t, e, t') && TextsKept(d, u, e, u')
    requires TextTells(e) && NamesAtStarts(e, t') && NamesAtStarts(e, u')
    ensures DedupEquiv.StandsFor(t', u') && DedupEnums.IsFull(u')
  {
    hide Text, TextTells, IsStart;
    assert t'.nameOff == Names(t')[0] && u'.nameOff == Names(u')[0];
    TellsName(e, t'.nameOff, u'.nameOff);
  }

  lemma TellsName(e: seq<char>, a: nat, b: nat)
    requires TextTells(e) && IsStart(e, a) && IsStart(e, b) && Text(e, a) == Text(e, b)
    ensures a == b
  {
  }

  lemma AllStandIn(o: Object, named: Object, out: Object, newIds: Id -> Id, emitted: seq<string>, resolve: bool)
    requires |o.types| == |named.types| && named.section == out.section && StringsDeduped(o, named.section, emitted)
    requires forall x :: 0 <= x < |o.types| ==>
               && TextsKept(o.section, o.types[x], named.section, named.types[x])
               && NamesAtStarts(named.section, named.types[x])
    requires forall x: Id :: x < |o.types| ==>
               newIds(x) < |out.types| && DedupMerge.StandIn(named.types[x], out.types[newIds(x)])
    requires resolve ==> DedupEnums.Defined(named.types, out.types, newIds)
    ensures forall x: Id :: x < |o.types| ==>
              TextStandIn(o.section, o.types[x], out.section, out.types[newIds(x)])
    ensures resolve ==> EnumsDefined(o, out, newIds)
  {
    hide TextsKept, TextStandIn, DedupMerge.StandIn, DedupEquiv.StandsFor, DefinedBy, StringsDeduped, TextTells,
         NamesAtStarts;
    DistinctTells(o, named.section, emitted);
    forall x: Id | x < |o.types|
      ensures TextStandIn(o.section, o.types[x], out.section, out.types[newIds(x)])
    {
      KeptThenStandsIn(o.section, o.types[x], out.section, named.types[x], out.types[newIds(x)]);
    }
    if resolve {
      forall f: Id, c: Id | f < |o.types| && c < |o.types| && DefinedBy(o.section, o.types[f], o.types[c])
        ensures out.types[newIds(f)].info.vlen > 0
      {
        DeclaresByName(o.section, out.section, o.types[f], o.types[c], named.types[f], named.types[c]);
      }
    }
  }

  /** btf__dedup. On success without forward declarations to resolve every type of
      the object is still the same C type, under its new id and in the new string
      section, and no two types are the same any more if the units it was made of
      had no such types; every type comes from one of the object, and every string
      reference outside the types keeps its text. But for memory, it succeeds on all objects
      whose names are known and whose references are ordinary and without cycles. */
  method Dedup(o: Object, dontResolveFwds: bool, forceCollisions: bool)
    returns (r: BtfDedup.Outcome, out: Object, ghost newIds: Id -> Id, ghost emitted: seq<string>)
    requires Section(o.section) && Closed(o.types) && |o.types| <= CanonMap.MAX_NR_TYPES + 1
    ensures r == BtfDedup.Done ==> Closed(out.types) && forall x: Id :: x < |o.types| ==> newIds(x) < |out.types|
    ensures r == BtfDedup.Done ==> AllNew(newIds, |o.types|, |out.types|)
    ensures r == BtfDedup.Done ==> MadeFrom(o, out, newIds) && DedupResult.NoCopies(out.types)
    ensures r == BtfDedup.Done ==>
              forall x: Id :: x < |o.types| ==>
                TextStandIn(o.section, o.types[x], out.section, out.types[newIds(x)])
    ensures r == BtfDedup.Done && !dontResolveFwds ==> EnumsDefined(o, out, newIds)
    ensures r == BtfDedup.Done && (dontResolveFwds || DedupEquiv.NoForwards(o.types)) ==>
              forall x: Id :: x < |o.types| ==> TextAlike(o.section, o.types, x, out.section, out.types, newIds(x))
    ensures (r == BtfDedup.Done && (dontResolveFwds || DedupEquiv.NoForwards(o.types))
             && MadeOfTextUnits(o.section, o.types)
             && DedupEquiv.OrdinaryRefs(o.types)) ==>
              TextMinimal(out.section, out.types)
    ensures r == BtfDedup.Done ==> StringsDeduped(o, out.section, emitted) && |out.extRefs| == |o.extRefs|
    ensures r == BtfDedup.Done ==>
              forall i :: 0 <= i < |o.extRefs| ==> PlacedAt(out.section, out.extRefs[i], Text(o.section, o.extRefs[i]))
    ensures r == BtfDedup.Invalid ==>
              !NamesKnown(o) || !DedupEquiv.KnownKinds(o.types) || !DedupEquiv.OrdinaryRefs(o.types)
    ensures r == BtfDedup.Loop ==> !DedupState.NoRefCycles(o.types)
    ensures r == BtfDedup.Done ==> NamesKnown(o) && DedupEquiv.KnownKinds(o.types) && DedupState.NoRefCycles(o.types)
  {
    hide TextAlike, Alike, Renamed, Closed, PlacedAt, StringsDeduped, Text, Layout, CanonMap.Forest,
         DedupResult.NewId, Section, NamesStart, RefsStart, NamesAtStarts, MadeOfTextUnits, TextMinimal,
         DedupResult.Minimal, DedupResult.MadeOfUnits, DedupEquiv.OrdinaryRefs, DedupEquiv.KnownKinds,
         DedupState.NoRefCycles, DedupEquiv.NoForwards, AllNew, MadeFrom, RecordsFrom, TextsKept, TextStandIn,
         DedupMerge.StandIn, DedupEnums.Defined, EnumsDefined, DedupResult.NoCopies;
    newIds := (x: Id) => x;
    var ok, named;
    ok, named, emitted := DedupStrings(o);
    out := named;
    if !ok {
      return BtfDedup.Invalid, out, newIds, emitted;
    }
    GraphRenamed(o.section, o.types, named.section, named.types);
    var types;
    r, types, newIds := DedupTypes(named.types, dontResolveFwds, forceCollisions);
    out := Object(named.section, types, named.extRefs);
    if r == BtfDedup.Done {
      AllMadeFrom(o, named, out, newIds);
      AllStandIn(o, named, out, newIds, emitted, !dontResolveFwds);
    }
    if r == BtfDedup.Done && (dontResolveFwds || DedupEquiv.NoForwards(o.types)) {
      EveryTypeKept(o, named, out, newIds);
      if MadeOfTextUnits(o.section, o.types) && DedupEquiv.OrdinaryRefs(o.types) {
        DedupIsMinimal(o, named, out, newIds, emitted);
      }
    }
  }

  /** Passes 2 to 6 of btf__dedup. */
  method DedupTypes(types: seq<BtfType>, dontResolveFwds: bool, forceCollisions: bool)
    returns (r: BtfDedup.Outcome, out: seq<BtfType>, ghost newIds: Id -> Id)
    requires Closed(types) && |types| <= CanonMap.MAX_NR_TYPES + 1
    ensures r == BtfDedup.Done ==> Closed(out) && forall x: Id :: x < |types| ==> newIds(x) < |out|
    ensures r == BtfDedup.Done && (dontResolveFwds || DedupEquiv.NoForwards(types)) ==>
              forall x: Id :: x < |types| ==> Alike(types, x, out, newIds(x))
    ensures r == BtfDedup.Done ==> RecordsFrom(types, out, newIds) && DedupResult.NoCopies(out)
    ensures r == BtfDedup.Done ==> forall x: Id :: x < |types| ==> DedupMerge.StandIn(types[x], out[newIds(x)])
    ensures r == BtfDedup.Done && !dontResolveFwds ==> DedupEnums.Defined(types, out, newIds)
    ensures (r == BtfDedup.Done && (dontResolveFwds || DedupEquiv.NoForwards(types)) && DedupResult.MadeOfUnits(types)
             && DedupEquiv.OrdinaryRefs(types)) ==>
              DedupResult.Minimal(out)
    ensures r == BtfDedup.Done ==> AllNew(newIds, |types|, |out|)
    ensures r == BtfDedup.Invalid ==> !DedupEquiv.KnownKinds(types) || !DedupEquiv.OrdinaryRefs(types)
    ensures r == BtfDedup.Loop ==> !DedupState.NoRefCycles(types)
    ensures r == BtfDedup.Done ==> DedupEquiv.KnownKinds(types) && DedupState.NoRefCycles(types)
  {
    hide *;
    var d := new BtfDedup.Dedup(types, dontResolveFwds, forceCollisions);
    r := d.Run();
    out := d.types;
    ghost var canon, ids := d.canon, d.hypot;
    newIds := DedupResult.NewIds(canon, ids);
    if r == BtfDedup.Done {
      d.Results();
      NewIdsAre(canon, ids, |out|);
      RecordsCome(types, out, canon, ids);
    }
  }
}
