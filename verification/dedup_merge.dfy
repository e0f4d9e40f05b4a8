/** What btf_dedup_merge_hypot_map does to forward declarations (btf.c). */
module DedupMerge {
  import opened BtfTypes
  import opened CanonMap
  import opened DedupState
  import opened DedupEquiv

  predicate IsFwd(g: seq<BtfType>, x: Id) {
    x < |g| && g[x].info.kind == Fwd
  }

  /** Merging joins the trees of a candidate t and a canonical type c: they are one
      already, one of them ends in a forward declaration, or only the struct or
      union of t has no place of its own yet. */
  ghost predicate WillJoin(g: seq<BtfType>, m: Links, t: Id, c: Id)
    requires Forest(m) && |g| == |m| && t < |m| && c < |m|
  {
    var tId, cId := Root(m, t), Root(m, c);
    || tId == cId || IsFwd(g, tId) != IsFwd(g, cId)
    || (IsComposite(g[tId].info.kind) && !IsFwd(g, cId) && Mapped(m, cId) && !Mapped(m, tId))
  }

  /** One pair has been merged: if it is to be, its trees are one, under the root that
      is no forward declaration, or that of c; no other tree changes. */
  ghost predicate MergedPair(g: seq<BtfType>, m: Links, m': Links, t: Id, c: Id)
    requires Forest(m) && Forest(m') && |g| == |m| == |m'| && t < |m| && c < |m|
  {
    var tId, cId := Root(m, t), Root(m, c);
    var top := if IsFwd(g, cId) then tId else cId;
    forall x :: 0 <= x < |m| ==>
                  Root(m', x) == if WillJoin(g, m, t, c) && Root(m, x) in {tId, cId} then top else Root(m, x)
  }

  /** The pairs named in `list` are merged one after the other. */
  ghost predicate MergeRun(g: seq<BtfType>, h: Links, list: seq<Id>, ms: seq<Links>) {
    && |ms| == |list| + 1 && |h| == |g|
    && (forall i :: 0 <= i < |ms| ==> |ms[i]| == |g| && Forest(ms[i]))
    && (forall i :: 0 <= i < |list| ==> MergedAt(g, h, list[i], ms[i], ms[i + 1]))
  }

  ghost predicate MergedAt(g: seq<BtfType>, h: Links, c: Id, m: Links, m': Links)
    requires |h| == |g| == |m| == |m'| && Forest(m) && Forest(m')
  {
    c < |g| && h[c] < |g| && MergedPair(g, m, m', h[c], c)
  }

  /** All recorded pairs are merged, in some order. */
  ghost predicate AllMerged(g: seq<BtfType>, m0: Links, m: Links, h: Links) {
    exists list: seq<Id>, ms: seq<Links> ::
      && Listed(h, list) && MergeRun(g, h, list, ms) && ms[0] == m0 && ms[|list|] == m
  }

  lemma MergeRunNext(g: seq<BtfType>, h: Links, list: seq<Id>, ms: seq<Links>, c: Id, m: Links)
    requires MergeRun(g, h, list, ms) && |m| == |g| && Forest(m) && MergedAt(g, h, c, ms[|list|], m)
    ensures MergeRun(g, h, list + [c], ms + [m])
  {
    var list', ms' := list + [c], ms + [m];
    hide Forest, MergedAt;
    forall i | 0 <= i < |ms'|
      ensures |ms'[i]| == |g| && Forest(ms'[i])
    {
      assert i < |ms| ==> ms'[i] == ms[i];
    }
    forall i | 0 <= i < |list'|
      ensures MergedAt(g, h, list'[i], ms'[i], ms'[i + 1])
    {
      assert i < |list| ==> ms'[i] == ms[i] && ms'[i + 1] == ms[i + 1] && list'[i] == list[i];
    }
  }

  lemma NothingMerged(g: seq<BtfType>, m: Links, t: Id, c: Id)
    requires Forest(m) && |g| == |m| && t < |m| && c < |m| && (Root(m, t) == Root(m, c) || !WillJoin(g, m, t, c))
    ensures MergedPair(g, m, m, t, c)
  {
  }

  /** One of the two roots is hung below the other. */
  lemma LinkMerges(g: seq<BtfType>, m: Links, t: Id, c: Id, a: Id, b: Id)
    requires Forest(m) && |g| == |m| <= MAX_NR_TYPES + 1 && t < |m| && c < |m| && WillJoin(g, m, t, c)
    requires if IsFwd(g, Root(m, c)) then a == Root(m, c) && b == Root(m, t) else a == Root(m, t) && b == Root(m, c)
    requires a != b
    ensures Forest(m[a := b]) && MergedPair(g, m, m[a := b], t, c)
  {
    RootUnfold(m, b);
    LinkRoot(m, a, b);
  }

  /** A forward declaration ends up as one of its name, or as a union of its name if its
      kind flag is set and a struct if not. */
  predicate Announced(t: BtfType, u: BtfType)
    requires t.info.kind == Fwd
  {
    if u.info.kind == Fwd then u.nameOff == t.nameOff && u.info.kflag == t.info.kflag else Announces(t, u)
  }

  /** What a type may be mapped to: a forward declaration to what it announces, a forward
      enum to one it may declare, a struct to one of its name, and all else to a type
      that differs in ids only. */
  ghost predicate StandIn(t: BtfType, u: BtfType) {
    match t.info.kind
    case Fwd => Announced(t, u)
    case Enum => u == t || StandsFor(t, u)
    case Struct | Union => u.info.kind == t.info.kind && u.nameOff == t.nameOff
    case _ => SameButIds(t, u)
  }

  lemma StandInLink(t: BtfType, u: BtfType, v: BtfType)
    requires StandIn(t, u) && LinkOk(u, v)
    ensures StandIn(t, v)
  {
    LabelByFields(t, u);
    LabelByFields(u, v);
    LabelByFields(t, v);
    hide Label, SameButIds;
    if SameButIds(t, u) {
      assert u.info == t.info;
    }
  }

  lemma StandInRoot(g: seq<BtfType>, m: Links, x: Id)
    requires |g| == |m| && Forest(m) && LinksOk(g, m) && x < |m|
    ensures StandIn(g[x], g[Root(m, x)])
  {
    var p := (y: nat) => y < |g| && StandIn(g[x], g[y]);
    LabelByFields(g[x], g[x]);
    hide LinkOk, SameButIds;
    forall y | 0 <= y < |m| && !IsRoot(m, y) && p(y)
      ensures p(m[y])
    {
      StandInLink(g[x], g[y], g[m[y]]);
    }
    RootKeeps(m, x, Steps(m, x), p);
  }

  /** Renumbering its ids does not change what a type stands in for. */
  lemma StandInRenumbered(newId: Id -> Id, t: BtfType, u: BtfType, v: BtfType)
    requires StandIn(t, u) && IdsRenumbered(newId, u, v) && WellFormed(u)
    ensures StandIn(t, v)
  {
    LabelByFields(t, u);
    LabelByFields(u, v);
    LabelByFields(t, v);
    hide Label, IdsMapped;
    if u.info.kind == Enum {
      assert v == u;
    }
  }

  /** A recorded pair of a forward declaration and what it may announce. */
  predicate FwdPair(g: seq<BtfType>, h: Links, c: Id) {
    Recorded(h, c) && c < |g| && h[c] < |g| && IsFwd(g, h[c]) != IsFwd(g, c)
  }

  function TheFwd(g: seq<BtfType>, h: Links, c: Id): (f: Id)
    requires FwdPair(g, h, c)
    ensures IsFwd(g, f)
  {
    if IsFwd(g, c) then c else h[c]
  }

  /** The forward declaration of the pair is unresolved, and no other pair speaks of it. */
  ghost predicate Alone(g: seq<BtfType>, m: Links, h: Links, c: Id)
    requires Forest(m) && |g| == |m| == |h| && FwdPair(g, h, c)
  {
    var r := Root(m, TheFwd(g, h, c));
    && IsFwd(g, r)
    && forall d: Id :: Recorded(h, d) && d != c && h[d] < |m| ==> Root(m, d) != r && Root(m, h[d]) != r
  }

  ghost predicate Resolved(g: seq<BtfType>, m: Links, h: Links, c: Id)
    requires Forest(m) && |g| == |m| == |h| && FwdPair(g, h, c)
  {
    !IsFwd(g, Root(m, c)) && !IsFwd(g, Root(m, h[c]))
  }

  /** The tree of r is as it was. */
  ghost predicate Untouched(m0: Links, m: Links, r: Id)
    requires Forest(m0) && Forest(m) && |m0| == |m|
  {
    forall x :: 0 <= x < |m| ==> (Root(m0, x) == r <==> Root(m, x) == r)
  }

  /** The pairs in `done` have been merged: their forward declarations are resolved,
      to the other type of the pair unless another pair or an earlier merge has had
      a say in it. */
  ghost predicate FwdsMerged(g: seq<BtfType>, m0: Links, m: Links, h: Links, done: seq<Id>)
    requires Forest(m0) && Forest(m) && |g| == |m0| == |m| == |h|
  {
    forall c: Id :: FwdPair(g, h, c) ==> FwdMerged(g, m0, m, h, c, c in done)
  }

  ghost predicate FwdMerged(g: seq<BtfType>, m0: Links, m: Links, h: Links, c: Id, over: bool)
    requires Forest(m0) && Forest(m) && |g| == |m0| == |m| == |h| && FwdPair(g, h, c)
  {
    && (over ==> Resolved(g, m, h, c))
    && (Alone(g, m0, h, c) ==>
          if over then Root(m, c) == Root(m, h[c]) else Untouched(m0, m, Root(m0, TheFwd(g, h, c))))
  }

  lemma NoneMerged(g: seq<BtfType>, m: Links, h: Links)
    requires Forest(m) && |g| == |m| == |h|
    ensures FwdsMerged(g, m, m, h, [])
  {
  }

  lemma OtherPairMerged(g: seq<BtfType>, m0: Links, m: Links, m': Links, h: Links, c: Id, over: bool, d: Id)
    requires Forest(m0) && Forest(m) && Forest(m') && |g| == |m0| == |m| == |m'| == |h|
    requires FwdPair(g, h, c) && FwdMerged(g, m0, m, h, c, over) && Recorded(h, d) && h[d] < |m| && (over || c != d)
    requires MergedPair(g, m, m', h[d], d)
    ensures FwdMerged(g, m0, m', h, c, over)
  {
    if Alone(g, m0, h, c) && !over {
      var r := Root(m0, TheFwd(g, h, c));
      assert Root(m0, d) != r && Root(m0, h[d]) != r;
    }
  }

  lemma ThisPairMerged(g: seq<BtfType>, m0: Links, m: Links, m': Links, h: Links, c: Id)
    requires Forest(m0) && Forest(m) && Forest(m') && |g| == |m0| == |m| == |m'| == |h|
    requires FwdPair(g, h, c) && FwdMerged(g, m0, m, h, c, false)
    requires !IsFwd(g, Root(m, c)) || !IsFwd(g, Root(m, h[c]))
    requires MergedPair(g, m, m', h[c], c)
    ensures FwdMerged(g, m0, m', h, c, true)
  {
    if Alone(g, m0, h, c) {
      var r := Root(m0, TheFwd(g, h, c));
      assert Root(m, TheFwd(g, h, c)) == r;
      assert WillJoin(g, m, h[c], c);
    }
    if IsFwd(g, Root(m, c)) != IsFwd(g, Root(m, h[c])) {
      assert WillJoin(g, m, h[c], c);
    }
  }

  /** One more pair has been merged. */
  lemma FwdsMergedNext(g: seq<BtfType>, m0: Links, m: Links, m': Links, h: Links, done: seq<Id>, d: Id)
    requires Forest(m0) && Forest(m) && Forest(m') && |g| == |m0| == |m| == |m'| == |h|
    requires FwdsMerged(g, m0, m, h, done) && Recorded(h, d) && h[d] < |m|
    requires FwdPair(g, h, d) ==> !IsFwd(g, Root(m, d)) || !IsFwd(g, Root(m, h[d]))
    requires MergedPair(g, m, m', h[d], d)
    ensures FwdsMerged(g, m0, m', h, done + [d])
  {
    forall c: Id | FwdPair(g, h, c)
      ensures FwdMerged(g, m0, m', h, c, c in done + [d])
    {
      assert FwdMerged(g, m0, m, h, c, c in done);
      hide *;
      if c in done || c != d {
        OtherPairMerged(g, m0, m, m', h, c, c in done, d);
        assert c in done + [d] <==> c in done;
      } else {
        ThisPairMerged(g, m0, m, m', h, c);
      }
    }
  }

  /** After the whole merge every forward declaration recorded against a struct or
      union is resolved, and alone it has become one type with it. */
  ghost predicate ForwardsMerged(g: seq<BtfType>, m0: Links, m: Links, h: Links)
    requires Forest(m0) && Forest(m) && |g| == |m0| == |m| == |h|
  {
    forall c: Id :: FwdPair(g, h, c) ==>
                      Resolved(g, m, h, c) && (Alone(g, m0, h, c) ==> Root(m, c) == Root(m, h[c]))
  }

  /** What is a definition is not mapped to a declaration. */
  ghost predicate NoneUnresolved(g: seq<BtfType>, m: Links)
    requires Forest(m) && |g| == |m|
  {
    forall x :: 0 <= x < |g| && !IsFwd(g, x) ==> !IsFwd(g, Root(m, x))
  }

  lemma FamiliesResolved(g: seq<BtfType>, m: Links)
    requires |g| == |m| && Forest(m) && LinksOk(g, m)
    ensures NoneUnresolved(g, m)
  {
    forall x | 0 <= x < |g| && !IsFwd(g, x)
      ensures !IsFwd(g, Root(m, x))
    {
      RootFamily(g, m, x);
    }
  }

  lemma {:induction false} RunResolves(g: seq<BtfType>, h: Links, list: seq<Id>, ms: seq<Links>, n: nat)
    requires MergeRun(g, h, list, ms) && Listed(h, list) && n <= |list| && NoneUnresolved(g, ms[0])
    ensures NoneUnresolved(g, ms[n]) && FwdsMerged(g, ms[0], ms[n], h, list[..n])
  {
    if n == 0 {
      NoneMerged(g, ms[0], h);
    } else {
      RunResolves(g, h, list, ms, n - 1);
      var d := list[n - 1];
      assert MergedAt(g, h, d, ms[n - 1], ms[n]);
      assert list[..n] == list[..n - 1] + [d];
      hide FwdsMerged, MergedPair, NoneUnresolved, Forest, Listed;
      assert Recorded(h, d) by { IsRecorded(h, list, n - 1); }
      StepResolves(g, h, ms[n - 1], ms[n], d);
      FwdsMergedNext(g, ms[0], ms[n - 1], ms[n], h, list[..n - 1], d);
    }
  }

  lemma IsRecorded(h: Links, list: seq<Id>, i: nat)
    requires Listed(h, list) && i < |list|
    ensures Recorded(h, list[i])
  {
  }

  lemma StepResolves(g: seq<BtfType>, h: Links, m: Links, m': Links, d: Id)
    requires |g| == |h| == |m| == |m'| && Forest(m) && Forest(m') && NoneUnresolved(g, m)
    requires d < |g| && h[d] < |g| && MergedPair(g, m, m', h[d], d)
    ensures NoneUnresolved(g, m')
    ensures FwdPair(g, h, d) ==> !IsFwd(g, Root(m, d)) || !IsFwd(g, Root(m, h[d]))
  {
    hide Forest;
  }

  lemma MergeResolves(g: seq<BtfType>, m0: Links, m: Links, h: Links)
    requires AllMerged(g, m0, m, h) && Forest(m0) && |m0| == |g| && LinksOk(g, m0)
    ensures Forest(m) && |g| == |m| == |h| && ForwardsMerged(g, m0, m, h)
  {
    FamiliesResolved(g, m0);
    var list: seq<Id>, ms: seq<Links> :| Listed(h, list) && MergeRun(g, h, list, ms) && ms[0] == m0 && ms[|list|] == m;
    RunResolves(g, h, list, ms, |list|);
    assert list[..|list|] == list;
    forall c: Id | FwdPair(g, h, c)
      ensures FwdMerged(g, m0, m, h, c, true)
    {
      assert c in list;
      assert FwdMerged(g, m0, m, h, c, c in list);
    }
  }

  /** A struct or union that represents itself. */
  predicate IsStructRoot(g: seq<BtfType>, m: Links, c: Id) {
    Canonical(m, c) && c < |g| && IsComposite(g[c].info.kind)
  }

  /** What has to be the same for x to be c has been merged, and no more. */
  ghost predicate StructMerged(g: seq<BtfType>, m: Links, m': Links, resolve: bool, x: Id, c: Id) {
    exists h: Links :: Least(g, m, resolve, h, x, c) && AllMerged(g, m, m', h)
  }

  /** After that the struct x becomes c. */
  ghost predicate StructJoins(g: seq<BtfType>, m: Links, m': Links, resolve: bool, x: Id, c: Id) {
    exists m1: Links :: StructMerged(g, m, m1, resolve, x, c) && x < |m1| && m' == m1[x := c]
  }

  /** The struct pass at type x: a struct without a place joins one that it is
      equivalent to, and represents itself if there is none. */
  ghost predicate StructStep(g: seq<BtfType>, m: Links, m': Links, resolve: bool, x: Id) {
    && x < |m| == |g|
    && if Mapped(m, x) || !IsComposite(g[x].info.kind) then m' == m
       else if exists c: Id :: IsStructRoot(g, m, c) && Equivalent(g, m, resolve, x, c)
       then exists c: Id :: IsStructRoot(g, m, c) && StructJoins(g, m, m', resolve, x, c)
       else m' == m[x := x]
  }

  lemma StructJoined(g: seq<BtfType>, m: Links, m1: Links, resolve: bool, x: Id, c: Id)
    requires StructMerged(g, m, m1, resolve, x, c) && x < |m1| && IsStructRoot(g, m, c)
    ensures StructJoins(g, m, m1[x := c], resolve, x, c) && Equivalent(g, m, resolve, x, c)
  {
  }

  /** The struct pass up to type n, with the map before each type. */
  ghost predicate StructRun(g: seq<BtfType>, resolve: bool, ms: seq<Links>, n: nat) {
    && |ms| == n && n > 0
    && forall x :: 1 <= x < n ==> StructStep(g, ms[x - 1], ms[x], resolve, x)
  }

  lemma StructRunNext(g: seq<BtfType>, resolve: bool, ms: seq<Links>, n: nat, m: Links)
    requires StructRun(g, resolve, ms, n) && |ms| == n && StructStep(g, ms[n - 1], m, resolve, n)
    ensures StructRun(g, resolve, ms + [m], n + 1)
  {
  }

  /** Two structs of one name, and its forward declaration, resolved to the first. */
  function Claimed(): (g: seq<BtfType>) {
    [VOID,
     BtfType(1, Info(Struct, false, 0), 4, Members([])),
     BtfType(1, Info(Struct, false, 0), 8, Members([])),
     BtfType(1, Info(Fwd, false, 0), 0, Nothing)]
  }

  function ClaimedMap(): (m: Links) {
    [0, 1, 2, 1]
  }

  lemma ClaimedRoots()
    ensures Forest(ClaimedMap()) && Root(ClaimedMap(), 2) == 2 && Root(ClaimedMap(), 3) == 1
  {
    var m := ClaimedMap();
    assert InRange(m);
    forall x | 0 <= x < |m|
      ensures Stops(m, x)
    {
      assert Settles(m, x, if x == 3 then 1 else 0);
    }
    RootUnfold(m, 1);
    RootUnfold(m, 2);
    RootUnfold(m, 3);
  }

  lemma ClaimedIsClosed()
    ensures Closed(Claimed())
  {
    var g := Claimed();
    assert forall x :: 0 <= x < |g| ==> Refs(g[x]) == [] && WellFormed(g[x]);
  }

  /** A forward declaration resolved before is not joined with another struct of its
      name that it is recorded against. */
  lemma ResolvedElsewhere()
    ensures Closed(Claimed()) && Forest(ClaimedMap()) && LinksOk(Claimed(), ClaimedMap())
    ensures var h := [UNPROCESSED, UNPROCESSED, 3, UNPROCESSED];
            && FwdPair(Claimed(), h, 2) && SameFamily(Claimed()[2], Claimed()[h[2]])
            && !WillJoin(Claimed(), ClaimedMap(), h[2], 2)
  {
    ClaimedRoots();
    ClaimedIsClosed();
    hide Forest, Root, Closed;
  }
}
