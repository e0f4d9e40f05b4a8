/** The hypothetical map of btf_dedup_is_equiv as a bisimulation up to the
    canonical map. */
module DedupEquiv {
  import opened BtfTypes
  import opened BtfCompare
  import opened CanonMap
  import opened DedupState

  predicate Recorded(h: Links, c: Id) {
    c < |h| && h[c] <= MAX_NR_TYPES
  }

  /** The entries not yet used; each call that takes no shortcut uses one up. */
  ghost function Open(h: Links): set<Id> {
    set c: Id | 0 <= c < |h| && !Recorded(h, c)
  }

  ghost predicate Extends(h0: Links, h: Links) {
    |h0| == |h| && forall c: Id :: Recorded(h0, c) ==> Recorded(h, c) && h[c] == h0[c]
  }

  /** hypot_list names exactly the recorded entries. */
  ghost predicate Listed(h: Links, list: seq<Id>) {
    && (forall i :: 0 <= i < |list| ==> Recorded(h, list[i]))
    && (forall c: Id :: Recorded(h, c) ==> c in list && h[c] < |h|)
  }

  /** What resolve_fwd_id finds: the struct or union a forward declaration has been
      resolved to, if it has. */
  ghost function FwdTarget(g: seq<BtfType>, m: Links, x: Id): (r: Id)
    requires Forest(m) && |m| == |g| && x < |m|
    ensures r < |m| && (r == x || r == Root(m, x))
  {
    if g[x].info.kind == Fwd && g[Root(m, x)].info.kind != Fwd then Root(m, x) else x
  }

  /** A candidate and a canonical type are taken for one: the map has joined them
      already, or the pair is among those assumed. */
  ghost predicate Joined(g: seq<BtfType>, m: Links, h: Links, cand: Id, canon: Id)
    requires Forest(m) && |h| == |m| == |g|
  {
    && cand < |m| && canon < |m|
    && (Root(m, cand) == Root(m, canon)
        || (Recorded(h, FwdTarget(g, m, canon)) && h[FwdTarget(g, m, canon)] == cand))
  }

  ghost predicate AllJoined(g: seq<BtfType>, m: Links, h: Links, cands: seq<Id>, canons: seq<Id>)
    requires Forest(m) && |h| == |m| == |g|
  {
    |cands| == |canons| && forall i {:trigger Joined(g, m, h, cands[i], canons[i])} ::
      0 <= i < |cands| ==> Joined(g, m, h, cands[i], canons[i])
  }

  /** A forward declaration of a struct, or of a union if its kind flag is set. */
  predicate Announces(t: BtfType, u: BtfType) {
    && t.info.kind == Fwd && t.nameOff == u.nameOff
    && u.info.kind == if t.info.kflag then Union else Struct
  }

  /** An enum without enumerators and one it may be the declaration of. */
  predicate StandsFor(t: BtfType, u: BtfType) {
    && t.info.kind == Enum && t.info.vlen == 0 && u.info.kind == Enum
    && t.nameOff == u.nameOff && t.size == u.size && t.info.kflag == u.info.kflag
  }

  /** One is declared only and the other may be its definition. */
  predicate Resolves(t: BtfType, u: BtfType) {
    Announces(t, u) || Announces(u, t) || StandsFor(t, u) || StandsFor(u, t)
  }

  /** An assumed pair bears scrutiny: one resolves the other, or they differ in ids
      only and what these name is joined in turn. */
  ghost predicate PairFits(g: seq<BtfType>, m: Links, resolve: bool, h: Links, c: Id)
    requires Forest(m) && |h| == |m| == |g|
  {
    && Recorded(h, c) && c < |g| && h[c] < |g|
    && ((resolve && Resolves(g[h[c]], g[c]))
        || (Label(g[h[c]]) == Label(g[c]) && AllJoined(g, m, h, Refs(g[h[c]]), Refs(g[c]))))
  }

  /** All assumed pairs bear scrutiny: a bisimulation up to the canonical map. */
  ghost predicate Bisimulation(g: seq<BtfType>, m: Links, resolve: bool, h: Links) {
    && Forest(m) && |h| == |m| == |g|
    && forall c: Id {:trigger PairFits(g, m, resolve, h, c)} :: Recorded(h, c) ==> PairFits(g, m, resolve, h, c)
  }

  /** The candidate may be taken for the canonical type: some assignment of candidates
      to canonical types that bears scrutiny joins them. */
  ghost predicate Equivalent(g: seq<BtfType>, m: Links, resolve: bool, cand: Id, canon: Id) {
    exists h: Links :: Bisimulation(g, m, resolve, h) && Joined(g, m, h, cand, canon)
  }

  /** The pairs recorded since h0, other than the one still being checked, bear
      scrutiny, and none is one of variables or sections. */
  ghost predicate NewPairsFit(g: seq<BtfType>, m: Links, resolve: bool, h0: Links, h: Links)
    requires Forest(m) && |h0| == |h| == |m| == |g|
  {
    forall c: Id {:trigger PairFits(g, m, resolve, h, c)} ::
      Recorded(h, c) && !Recorded(h0, c) ==> PairFits(g, m, resolve, h, c) && !IsKept(g[c].info.kind)
  }

  /** What is recorded is part of a bisimulation. */
  ghost predicate Within(g: seq<BtfType>, m: Links, resolve: bool, h: Links, hs: Links) {
    Bisimulation(g, m, resolve, hs) && Extends(h, hs)
  }

  lemma JoinedGrows(g: seq<BtfType>, m: Links, h: Links, h': Links, cands: seq<Id>, canons: seq<Id>)
    requires Forest(m) && |h| == |m| == |g| && Extends(h, h') && AllJoined(g, m, h, cands, canons)
    ensures AllJoined(g, m, h', cands, canons)
  {
    forall i | 0 <= i < |cands|
      ensures Joined(g, m, h', cands[i], canons[i])
    {
      assert Joined(g, m, h, cands[i], canons[i]);
    }
  }

  lemma PairGrows(g: seq<BtfType>, m: Links, resolve: bool, h: Links, h': Links, c: Id)
    requires Forest(m) && |h| == |m| == |g| && Extends(h, h') && PairFits(g, m, resolve, h, c)
    ensures PairFits(g, m, resolve, h', c)
  {
    if Label(g[h[c]]) == Label(g[c]) && AllJoined(g, m, h, Refs(g[h[c]]), Refs(g[c])) {
      JoinedGrows(g, m, h, h', Refs(g[h[c]]), Refs(g[c]));
    }
  }

  lemma NewPairsCompose(g: seq<BtfType>, m: Links, resolve: bool, h0: Links, h1: Links, h2: Links)
    requires Forest(m) && |h0| == |m| == |g| && Extends(h0, h1) && Extends(h1, h2)
    requires NewPairsFit(g, m, resolve, h0, h1) && NewPairsFit(g, m, resolve, h1, h2)
    ensures NewPairsFit(g, m, resolve, h0, h2) && Extends(h0, h2)
  {
    forall c: Id | Recorded(h2, c) && !Recorded(h0, c)
      ensures PairFits(g, m, resolve, h2, c) && !IsKept(g[c].info.kind)
    {
      if Recorded(h1, c) {
        assert PairFits(g, m, resolve, h1, c);
        PairGrows(g, m, resolve, h1, h2, c);
      }
    }
  }

  ghost predicate PairAgrees(g: seq<BtfType>, h: Links, c: Id, k: nat)
    requires Recorded(h, c)
  {
    Unfold(g, h[c], k) == Unfold(g, c, k)
  }

  /** All recorded pairs agree down to depth k. */
  ghost predicate PairsAgree(g: seq<BtfType>, h: Links, k: nat) {
    forall c: Id :: Recorded(h, c) ==> PairAgrees(g, h, c, k)
  }

  lemma JoinedAgree(g: seq<BtfType>, m: Links, h: Links, x: Id, y: Id, k: nat)
    requires |g| == |m| == |h| && Forest(m) && Sound(g, m)
    requires PairsAgree(g, h, k) && Joined(g, m, h, x, y)
    ensures Unfold(g, x, k) == Unfold(g, y, k)
  {
    SoundRoot(g, m, y);
    if Root(m, x) == Root(m, y) {
      SoundRoot(g, m, x);
      assert Unfold(g, x, k) == Unfold(g, Root(m, x), k) == Unfold(g, y, k);
    } else {
      assert PairAgrees(g, h, FwdTarget(g, m, y), k);
    }
  }

  /** Nothing here is resolved: forward declarations are not, or there are none. */
  ghost predicate Plain(g: seq<BtfType>, resolve: bool) {
    !resolve || NoForwards(g)
  }

  lemma PairAgreesDeeper(g: seq<BtfType>, m: Links, resolve: bool, h: Links, c: Id, k: nat)
    requires |g| == |m| == |h| && Forest(m) && Sound(g, m) && Plain(g, resolve)
    requires PairsAgree(g, h, k) && PairFits(g, m, resolve, h, c)
    ensures PairAgrees(g, h, c, k + 1)
  {
    var x, y := Refs(g[h[c]]), Refs(g[c]);
    forall i | 0 <= i < |x|
      ensures Unfold(g, x[i], k) == Unfold(g, y[i], k)
    {
      assert Joined(g, m, h, x[i], y[i]);
      JoinedAgree(g, m, h, x[i], y[i], k);
    }
    UnfoldStep(g, h[c], g, c, k);
  }

  lemma PairsAgreeAtZero(g: seq<BtfType>, h: Links)
    ensures PairsAgree(g, h, 0)
  {
  }

  lemma OnePairDeeper(g: seq<BtfType>, m: Links, resolve: bool, h: Links, c: Id, k: nat)
    requires |g| == |m| && Bisimulation(g, m, resolve, h) && Sound(g, m) && Plain(g, resolve)
    requires k > 0 && PairsAgree(g, h, k - 1) && Recorded(h, c)
    ensures PairAgrees(g, h, c, k)
  {
    hide *;
    RecordedFits(g, m, resolve, h, c);
    PairAgreesDeeper(g, m, resolve, h, c, k - 1);
  }

  lemma RecordedFits(g: seq<BtfType>, m: Links, resolve: bool, h: Links, c: Id)
    requires Bisimulation(g, m, resolve, h) && Recorded(h, c)
    ensures Forest(m) && |h| == |m| == |g| && PairFits(g, m, resolve, h, c)
  {
    hide Forest;
  }

  lemma PairsAgreeDeeper(g: seq<BtfType>, m: Links, resolve: bool, h: Links, k: nat)
    requires Bisimulation(g, m, resolve, h) && Sound(g, m) && Plain(g, resolve)
    requires |g| == |m| && k > 0 && PairsAgree(g, h, k - 1)
    ensures PairsAgree(g, h, k)
  {
    hide Bisimulation, Sound, Forest, PairAgrees, Unfold, Plain, Recorded;
    forall c: Id | Recorded(h, c)
      ensures PairAgrees(g, h, c, k)
    {
      assert PairsAgree(g, h, k - 1);
      hide *;
      OnePairDeeper(g, m, resolve, h, c, k);
    }
  }

  lemma {:induction false} BisimulationAgrees(g: seq<BtfType>, m: Links, resolve: bool, h: Links, k: nat)
    requires Bisimulation(g, m, resolve, h) && Sound(g, m) && Plain(g, resolve)
    ensures PairsAgree(g, h, k)
  {
    assert |g| == |m|;
    hide Bisimulation, Sound, Forest, PairsAgree, Plain;
    if k == 0 {
      PairsAgreeAtZero(g, h);
    } else {
      BisimulationAgrees(g, m, resolve, h, k - 1);
      PairsAgreeDeeper(g, m, resolve, h, k);
    }
  }

  /** Types joined by a bisimulation up to a sound canonical map mean the same. */
  lemma BisimulationIsMeaning(g: seq<BtfType>, m: Links, resolve: bool, h: Links, x: Id, y: Id)
    requires Bisimulation(g, m, resolve, h) && Sound(g, m) && Plain(g, resolve)
    requires Joined(g, m, h, x, y)
    ensures Alike(g, x, g, y)
  {
    forall k: nat
      ensures Unfold(g, x, k) == Unfold(g, y, k)
    {
      BisimulationAgrees(g, m, resolve, h, k);
      JoinedAgree(g, m, h, x, y, k);
    }
  }

  lemma RecordedIsMeaning(g: seq<BtfType>, m: Links, resolve: bool, h: Links, c: Id)
    requires Bisimulation(g, m, resolve, h) && Sound(g, m) && Plain(g, resolve) && Recorded(h, c)
    ensures Alike(g, h[c], g, c)
  {
    forall k: nat
      ensures Unfold(g, h[c], k) == Unfold(g, c, k)
    {
      BisimulationAgrees(g, m, resolve, h, k);
      assert PairAgrees(g, h, c, k);
    }
  }

  lemma FittingIsKin(g: seq<BtfType>, m: Links, resolve: bool, h: Links, c: Id)
    requires Forest(m) && |h| == |m| == |g| && PairFits(g, m, resolve, h, c)
    ensures SameFamily(g[h[c]], g[c])
  {
  }

  /** A struct without a place and a candidate that is one of itself look alike. */
  lemma EquivalentStructs(g: seq<BtfType>, m: Links, resolve: bool, x: Id, c: Id)
    requires Equivalent(g, m, resolve, x, c) && |m| == |g| && Forest(m) && c < |g| && x < |g|
    requires Root(m, x) != Root(m, c) && IsComposite(g[x].info.kind) && IsComposite(g[c].info.kind)
    ensures Label(g[x]) == Label(g[c])
  {
    var h: Links :| Bisimulation(g, m, resolve, h) && Joined(g, m, h, x, c);
    assert PairFits(g, m, resolve, h, c);
  }

  /** A compilation unit: closed under references, no two types in it mean the same. */
  ghost predicate Unit(g: seq<BtfType>, cu: set<Id>) {
    && (forall x :: x in cu ==> x < |g| && forall i :: 0 <= i < |Refs(g[x])| ==> Refs(g[x])[i] in cu)
    && (forall x, y :: x in cu && y in cu && Alike(g, x, g, y) ==> x == y)
  }

  /** No type stands for one declared elsewhere. */
  ghost predicate NoForwards(g: seq<BtfType>) {
    forall x :: 0 <= x < |g| ==> !IsForward(g[x])
  }

  /** From x one comes to a forward declaration or forward enum within k steps. */
  ghost predicate ForwardWithin(g: seq<BtfType>, x: Id, k: nat)
    decreases k
  {
    && x < |g|
    && (IsForward(g[x]) || (k > 0 && exists i :: 0 <= i < |Refs(g[x])| && ForwardWithin(g, Refs(g[x])[i], k - 1)))
  }

  /** What x means has no forward declaration in it. */
  ghost predicate PlainFrom(g: seq<BtfType>, x: Id) {
    forall k: nat :: !ForwardWithin(g, x, k)
  }

  lemma PlainParts(g: seq<BtfType>, x: Id)
    requires x < |g| && PlainFrom(g, x)
    ensures !IsForward(g[x]) && forall i :: 0 <= i < |Refs(g[x])| ==> PlainFrom(g, Refs(g[x])[i])
  {
    assert !ForwardWithin(g, x, 0);
    forall i, k: nat | 0 <= i < |Refs(g[x])|
      ensures !ForwardWithin(g, Refs(g[x])[i], k)
    {
      assert !ForwardWithin(g, x, k + 1);
    }
  }

  /** Types that mean the same have forward declarations in them or have not. */
  lemma {:induction false} PlainAlike(g: seq<BtfType>, x: Id, y: Id, k: nat)
    requires x < |g| && y < |g| && Closed(g) && Alike(g, x, g, y) && ForwardWithin(g, y, k)
    ensures ForwardWithin(g, x, k)
    decreases k
  {
    AlikeParts(g, x, g, y);
    if !IsForward(g[y]) {
      var i :| 0 <= i < |Refs(g[y])| && ForwardWithin(g, Refs(g[y])[i], k - 1);
      PlainAlike(g, Refs(g[x])[i], Refs(g[y])[i], k - 1);
    }
  }

  lemma {:induction false} NoForwardWithin(g: seq<BtfType>, x: Id, k: nat)
    requires NoForwards(g)
    ensures !ForwardWithin(g, x, k)
    decreases k
  {
    if x < |g| && k > 0 {
      forall i | 0 <= i < |Refs(g[x])|
        ensures !ForwardWithin(g, Refs(g[x])[i], k - 1)
      {
        NoForwardWithin(g, Refs(g[x])[i], k - 1);
      }
    }
  }

  /** A partner for c in the unit, to be expected because it means the same. */
  ghost predicate IsPartner(g: seq<BtfType>, resolve: bool, cu: set<Id>, x: Id, c: Id) {
    x in cu && Alike(g, x, g, c) && (!resolve || PlainFrom(g, x))
  }

  ghost predicate HasPartner(g: seq<BtfType>, resolve: bool, cu: set<Id>, c: Id) {
    exists x: Id :: IsPartner(g, resolve, cu, x, c)
  }

  ghost function Partner(g: seq<BtfType>, resolve: bool, cu: set<Id>, c: Id): (x: nat)
    ensures HasPartner(g, resolve, cu, c) ==> IsPartner(g, resolve, cu, x, c)
    ensures !HasPartner(g, resolve, cu, c) ==> x == UNPROCESSED
  {
    if HasPartner(g, resolve, cu, c) then
      var x: Id :| IsPartner(g, resolve, cu, x, c);
      x
    else UNPROCESSED
  }

  /** Every canonical type with its partner in the unit. */
  ghost function Partners(g: seq<BtfType>, resolve: bool, cu: set<Id>): (h: Links)
    ensures |h| == |g|
  {
    seq(|g|, c requires 0 <= c < |g| => Partner(g, resolve, cu, c))
  }

  lemma PartnerIsOne(g: seq<BtfType>, resolve: bool, cu: set<Id>, x: Id, c: Id)
    requires Unit(g, cu) && IsPartner(g, resolve, cu, x, c) && c < |g| <= MAX_NR_TYPES + 1
    ensures Recorded(Partners(g, resolve, cu), c) && Partners(g, resolve, cu)[c] == x
  {
    var y := Partner(g, resolve, cu, c);
    AlikeSym(g, x, g, c);
    AlikeTrans(g, y, g, c, g, x);
  }

  /** Forward declarations are where the map has them if nothing is resolved. */
  lemma PartnerTarget(g: seq<BtfType>, m: Links, resolve: bool, cu: set<Id>, x: Id, c: Id)
    requires Closed(g) && Forest(m) && |m| == |g| && x < |g| && c < |g| && (!resolve ==> Sound(g, m))
    requires IsPartner(g, resolve, cu, x, c)
    ensures FwdTarget(g, m, c) == c
  {
    if resolve {
      PlainParts(g, x);
      AlikeParts(g, x, g, c);
    } else {
      SoundRoot(g, m, c);
      AlikeParts(g, c, g, Root(m, c));
    }
  }

  lemma PartnersJoined(g: seq<BtfType>, m: Links, resolve: bool, cu: set<Id>, x: Id, c: Id)
    requires Closed(g) && Forest(m) && |m| == |g| <= MAX_NR_TYPES + 1 && (!resolve ==> Sound(g, m))
    requires Unit(g, cu) && c < |g| && IsPartner(g, resolve, cu, x, c)
    ensures Joined(g, m, Partners(g, resolve, cu), x, c)
  {
    PartnerTarget(g, m, resolve, cu, x, c);
    PartnerIsOne(g, resolve, cu, x, c);
  }

  lemma PartnersFit(g: seq<BtfType>, m: Links, resolve: bool, cu: set<Id>, c: Id)
    requires Closed(g) && Forest(m) && |m| == |g| <= MAX_NR_TYPES + 1 && (!resolve ==> Sound(g, m))
    requires Unit(g, cu) && Recorded(Partners(g, resolve, cu), c)
    ensures PairFits(g, m, resolve, Partners(g, resolve, cu), c)
  {
    var h := Partners(g, resolve, cu);
    var x := h[c];
    assert IsPartner(g, resolve, cu, x, c);
    AlikeParts(g, x, g, c);
    if resolve {
      PlainParts(g, x);
    }
    forall i | 0 <= i < |Refs(g[x])|
      ensures Joined(g, m, h, Refs(g[x])[i], Refs(g[c])[i])
    {
      assert IsPartner(g, resolve, cu, Refs(g[x])[i], Refs(g[c])[i]);
      PartnersJoined(g, m, resolve, cu, Refs(g[x])[i], Refs(g[c])[i]);
    }
  }

  /** Inside a unit, a type that forward declarations have no part in is equivalent
      to what it means the same as. */
  lemma UnitEquivalent(g: seq<BtfType>, m: Links, resolve: bool, cu: set<Id>, x: Id, c: Id)
    requires Closed(g) && Forest(m) && |m| == |g| <= MAX_NR_TYPES + 1 && (!resolve ==> Sound(g, m))
    requires Unit(g, cu) && x in cu && c < |g| && Alike(g, x, g, c) && (!resolve || PlainFrom(g, x))
    ensures Equivalent(g, m, resolve, x, c)
  {
    var h := Partners(g, resolve, cu);
    forall d: Id | Recorded(h, d)
      ensures PairFits(g, m, resolve, h, d)
    {
      PartnersFit(g, m, resolve, cu, d);
    }
    PartnersJoined(g, m, resolve, cu, x, c);
  }

  /** Positive, zero, or a negative error. */
  datatype Verdict = Equal | Different | Failed

  /** The check of one pair of descriptors: decided at once, or up to their references. */
  datatype LocalCheck = Settled(verdict: Verdict) | Descend

  /** The comparisons btf_dedup_is_equiv makes before it recurses. */
  function CheckPair(cand: BtfType, canon: BtfType, resolveFwds: bool): (check: LocalCheck)
    requires WellFormed(cand) && WellFormed(canon)
  {
    var candKind, canonKind := cand.info.kind, canon.info.kind;
    if cand.nameOff != canon.nameOff then Settled(Different)
    else if resolveFwds && (candKind == Fwd || canonKind == Fwd) && candKind != canonKind then
      var realKind := if candKind == Fwd then canonKind else candKind;
      var fwdKind := if candKind == Fwd then Family(cand) else Family(canon);
      Settled(if fwdKind == realKind then Equal else Different)
    else if candKind != canonKind then Settled(Different)
    else
      match candKind
      case Int => Settled(if EqualInt(cand, canon) then Equal else Different)
      case Enum =>
        Settled(if (if resolveFwds then CompatEnum(cand, canon) else EqualEnum(cand, canon)) then Equal else Different)
      case Fwd => Settled(if EqualCommon(cand, canon) then Equal else Different)
      case Const | Volatile | Restrict | Ptr | Typedef | Func =>
        if cand.info == canon.info then Descend else Settled(Different)
      case Array => if CompatArray(cand, canon) then Descend else Settled(Different)
      case Struct | Union => if ShallowEqualStruct(cand, canon) then Descend else Settled(Different)
      case FuncProto => if CompatFnProto(cand, canon) then Descend else Settled(Different)
      case _ => Settled(Failed)
  }

  /** What is decided before recursing: equal if one declares the other or they are one
      primitive record, more to look at if all but ids is the same, an error for void,
      variables and sections of one name. */
  ghost predicate Checked(check: LocalCheck, cand: BtfType, canon: BtfType, resolveFwds: bool) {
    && (check == Settled(Equal) <==>
          (resolveFwds && Resolves(cand, canon)) || (IsPrimKind(cand.info.kind) && cand == canon))
    && (check == Descend <==>
          !IsPrimKind(cand.info.kind) && !IsKept(cand.info.kind) && Label(cand) == Label(canon))
    && (check == Settled(Failed) <==>
          cand.nameOff == canon.nameOff && cand.info.kind == canon.info.kind && IsKept(cand.info.kind))
  }

  lemma CheckPairIs(cand: BtfType, canon: BtfType, resolveFwds: bool)
    requires WellFormed(cand) && WellFormed(canon)
    ensures Checked(CheckPair(cand, canon, resolveFwds), cand, canon, resolveFwds)
  {
    if cand.nameOff != canon.nameOff || cand.info.kind != canon.info.kind {
      OtherPair(cand, canon, resolveFwds);
    } else if IsPrimKind(cand.info.kind) {
      PrimPair(cand, canon, resolveFwds);
    } else {
      RefPair(cand, canon, resolveFwds);
    }
  }

  lemma OtherPair(cand: BtfType, canon: BtfType, resolveFwds: bool)
    requires WellFormed(cand) && WellFormed(canon)
    requires cand.nameOff != canon.nameOff || cand.info.kind != canon.info.kind
    ensures Checked(CheckPair(cand, canon, resolveFwds), cand, canon, resolveFwds)
  {
    assert Label(cand) != Label(canon);
    hide Label, WellFormed;
  }

  lemma PrimPair(cand: BtfType, canon: BtfType, resolveFwds: bool)
    requires WellFormed(cand) && WellFormed(canon) && cand.nameOff == canon.nameOff
    requires cand.info.kind == canon.info.kind && IsPrimKind(cand.info.kind)
    ensures Checked(CheckPair(cand, canon, resolveFwds), cand, canon, resolveFwds)
  {
    PrimChecks(cand, canon);
    hide Label;
  }

  lemma RefPair(cand: BtfType, canon: BtfType, resolveFwds: bool)
    requires WellFormed(cand) && WellFormed(canon) && cand.nameOff == canon.nameOff
    requires cand.info.kind == canon.info.kind && !IsPrimKind(cand.info.kind)
    ensures Checked(CheckPair(cand, canon, resolveFwds), cand, canon, resolveFwds)
  {
    if !IsKept(cand.info.kind) {
      LocallyEqualIsLabel(cand, canon);
    }
    hide Label, WellFormed, ShallowEqualStruct, CompatArray, CompatFnProto;
  }

  lemma PrimChecks(cand: BtfType, canon: BtfType)
    requires WellFormed(cand) && WellFormed(canon) && IsPrimKind(cand.info.kind)
    ensures EqualFiled(cand, canon) <==> cand == canon
    ensures Label(cand) == Label(canon) <==> cand == canon
    ensures Refs(cand) == []
  {
    EqualFiledIsIdentity(cand, canon);
    PrimLabel(cand);
    if cand.info == canon.info {
      PrimLabel(canon);
    }
  }

  /** Variables and sections are named by sections only. */
  ghost predicate OrdinaryRefs(g: seq<BtfType>) {
    forall x, i :: 0 <= x < |g| && 0 <= i < |Refs(g[x])| && Refs(g[x])[i] < |g| && g[x].info.kind != DataSec ==>
                     g[Refs(g[x])[i]].info.kind != Var && g[Refs(g[x])[i]].info.kind != DataSec
  }

  /** All kinds are known. */
  ghost predicate KnownKinds(g: seq<BtfType>) {
    forall x :: 0 < x < |g| ==> g[x].info.kind != Unkn
  }

  lemma UnknownKind(g: seq<BtfType>, x: Id)
    requires 0 < x < |g|
    ensures g[x].info.kind == Unkn ==> !KnownKinds(g)
  {
  }

  /** Not a variable or section, and void only as type 0. */
  predicate Usual(g: seq<BtfType>, x: Id) {
    x < |g| && (x == 0 || !IsKept(g[x].info.kind))
  }

  lemma RefsUsual(g: seq<BtfType>, x: Id)
    requires Closed(g) && OrdinaryRefs(g) && KnownKinds(g) && Usual(g, x)
    ensures forall i :: 0 <= i < |VisitOrder(g[x])| ==> Usual(g, VisitOrder(g[x])[i])
  {
    forall i | 0 <= i < |Refs(g[x])|
      ensures Usual(g, Refs(g[x])[i])
    {
    }
    if g[x].info.kind == Array {
      assert VisitOrder(g[x]) == [Refs(g[x])[1], Refs(g[x])[0]];
    }
  }

  /** References in the order the check follows them: an array's index type first. */
  function VisitOrder(t: BtfType): (rs: seq<Id>)
    requires WellFormed(t)
    ensures |rs| == |Refs(t)|
  {
    if t.info.kind == Array then [t.payload.index, t.payload.elem] else Refs(t)
  }

  lemma VisitedJoined(g: seq<BtfType>, m: Links, h: Links, cand: BtfType, canon: BtfType)
    requires Forest(m) && |h| == |m| == |g| && WellFormed(cand) && WellFormed(canon)
    requires cand.info.kind == canon.info.kind
    ensures AllJoined(g, m, h, VisitOrder(cand), VisitOrder(canon)) <==> AllJoined(g, m, h, Refs(cand), Refs(canon))
  {
    if cand.info.kind == Array {
      var x, y := VisitOrder(cand), VisitOrder(canon);
      var p, q := Refs(cand), Refs(canon);
      assert p == [x[1], x[0]] && q == [y[1], y[0]];
      if AllJoined(g, m, h, x, y) {
        assert Joined(g, m, h, x[0], y[0]) && Joined(g, m, h, x[1], y[1]);
      }
      if AllJoined(g, m, h, p, q) {
        assert Joined(g, m, h, p[0], q[0]) && Joined(g, m, h, p[1], q[1]);
      }
    }
  }

  /** A pair settled by its local check. */
  lemma SettleLeaf(g: seq<BtfType>, m: Links, resolve: bool, h: Links, cand: Id, canon: Id)
    requires Forest(m) && |h| == |m| == |g| <= MAX_NR_TYPES + 1 && cand < |g| && canon < |g|
    requires WellFormed(g[cand]) && WellFormed(g[canon])
    requires CheckPair(g[cand], g[canon], resolve) == LocalCheck.Settled(Equal)
    ensures NewPairsFit(g, m, resolve, h, h[canon := cand])
  {
    CheckPairIs(g[cand], g[canon], resolve);
    if IsPrimKind(g[cand].info.kind) {
      PrimLabel(g[cand]);
    }
    hide CheckPair, WellFormed, Label, Refs;
    assert !IsKept(g[canon].info.kind);
    var h' := h[canon := cand];
    assert PairFits(g, m, resolve, h', canon);
    forall c: Id | Recorded(h', c) && !Recorded(h, c)
      ensures PairFits(g, m, resolve, h', c) && !IsKept(g[c].info.kind)
    {
      assert c == canon;
    }
  }

  /** A pair with references is settled once they are. */
  lemma SettleNode(g: seq<BtfType>, m: Links, resolve: bool, h0: Links, h: Links, cand: Id, canon: Id)
    requires Forest(m) && |h0| == |m| == |g| <= MAX_NR_TYPES + 1 && cand < |g| && canon < |g| && !Recorded(h0, canon)
    requires WellFormed(g[cand]) && WellFormed(g[canon]) && !IsKept(g[cand].info.kind)
    requires Label(g[cand]) == Label(g[canon]) && Extends(h0[canon := cand], h)
    requires NewPairsFit(g, m, resolve, h0[canon := cand], h)
    requires AllJoined(g, m, h, VisitOrder(g[cand]), VisitOrder(g[canon]))
    ensures NewPairsFit(g, m, resolve, h0, h)
  {
    VisitedJoined(g, m, h, g[cand], g[canon]);
    assert Recorded(h0[canon := cand], canon);
    hide Forest, AllJoined, Label, Refs, VisitOrder, WellFormed;
    forall c: Id | Recorded(h, c) && !Recorded(h0, c)
      ensures PairFits(g, m, resolve, h, c) && !IsKept(g[c].info.kind)
    {
      assert c != canon ==> !Recorded(h0[canon := cand], c);
    }
  }

  /** A recorded pair of a bisimulation is not refused by its local check. */
  lemma FittingChecks(g: seq<BtfType>, m: Links, resolve: bool, hs: Links, cand: Id, canon: Id)
    requires Bisimulation(g, m, resolve, hs) && Recorded(hs, canon) && hs[canon] == cand
    requires cand < |g| && WellFormed(g[cand]) && WellFormed(g[canon])
    ensures CheckPair(g[cand], g[canon], resolve) != LocalCheck.Settled(Different)
    ensures CheckPair(g[cand], g[canon], resolve) == Descend ==>
              AllJoined(g, m, hs, VisitOrder(g[cand]), VisitOrder(g[canon]))
  {
    assert PairFits(g, m, resolve, hs, canon);
    CheckPairIs(g[cand], g[canon], resolve);
    hide CheckPair;
    if IsPrimKind(g[cand].info.kind) && g[cand].info == g[canon].info {
      PrimLabel(g[cand]);
      PrimLabel(g[canon]);
    }
    if g[cand].info.kind == g[canon].info.kind {
      VisitedJoined(g, m, hs, g[cand], g[canon]);
    }
  }

  /** The outcome of a check that starts with h0 and ends with h is the only one
      possible: were there a bisimulation that includes h0, it would include h. */
  ghost predicate Forced(g: seq<BtfType>, m: Links, resolve: bool, h0: Links, h: Links, eq: Verdict) {
    forall hs: Links :: Within(g, m, resolve, h0, hs) ==> eq != Different && (eq == Equal ==> Extends(h, hs))
  }

  /** The same, for bisimulations that join a given pair. */
  ghost predicate Decided(g: seq<BtfType>, m: Links, resolve: bool, h0: Links, h: Links, eq: Verdict,
                          cand: Id, canon: Id)
  {
    forall hs: Links :: Within(g, m, resolve, h0, hs) && Joined(g, m, hs, cand, canon) ==>
                          eq != Different && (eq == Equal ==> Extends(h, hs))
  }

  ghost predicate AllDecided(g: seq<BtfType>, m: Links, resolve: bool, h0: Links, h: Links, eq: Verdict,
                             cands: seq<Id>, canons: seq<Id>)
  {
    forall hs: Links :: Within(g, m, resolve, h0, hs) && AllJoined(g, m, hs, cands, canons) ==>
                          eq != Different && (eq == Equal ==> Extends(h, hs))
  }

  lemma DecidedAtOnce(g: seq<BtfType>, m: Links, resolve: bool, h: Links, cand: Id, canon: Id)
    ensures Decided(g, m, resolve, h, h, Equal, cand, canon)
  {
  }

  /** The canonical type already stands for a candidate: for this one or not. */
  lemma DecidedAgain(g: seq<BtfType>, m: Links, resolve: bool, h: Links, eq: Verdict, cand: Id, canon: Id)
    requires Forest(m) && |h| == |m| == |g| && cand < |g| && canon < |g| && Root(m, cand) != Root(m, canon)
    requires Recorded(h, FwdTarget(g, m, canon))
    requires eq == if h[FwdTarget(g, m, canon)] == cand then Equal else Different
    ensures Decided(g, m, resolve, h, h, eq, cand, canon)
  {
  }

  /** The pair has been recorded before the check went on. */
  lemma DecidedLater(g: seq<BtfType>, m: Links, resolve: bool, h0: Links, h: Links, eq: Verdict, cand: Id, canon: Id)
    requires Forest(m) && |h0| == |m| == |g| && cand < |g| && canon < |g| && Root(m, cand) != Root(m, canon)
    requires Forced(g, m, resolve, h0[FwdTarget(g, m, canon) := cand], h, eq)
    ensures Decided(g, m, resolve, h0, h, eq, cand, canon)
  {
    var h1 := h0[FwdTarget(g, m, canon) := cand];
    forall hs: Links | Within(g, m, resolve, h0, hs) && Joined(g, m, hs, cand, canon)
      ensures Within(g, m, resolve, h1, hs)
    {
    }
  }

  /** A check that is settled without looking at references. */
  lemma ForcedLeaf(g: seq<BtfType>, m: Links, resolve: bool, h: Links, cand: Id, canon: Id)
    requires cand < |g| && canon < |g| && WellFormed(g[cand]) && WellFormed(g[canon])
    requires Recorded(h, canon) && h[canon] == cand && CheckPair(g[cand], g[canon], resolve).Settled?
    ensures Forced(g, m, resolve, h, h, CheckPair(g[cand], g[canon], resolve).verdict)
  {
    hide CheckPair;
    forall hs: Links | Within(g, m, resolve, h, hs)
      ensures CheckPair(g[cand], g[canon], resolve) != LocalCheck.Settled(Different)
    {
      FittingChecks(g, m, resolve, hs, cand, canon);
    }
  }

  /** A check that goes on with the references. */
  lemma ForcedNode(g: seq<BtfType>, m: Links, resolve: bool, h1: Links, h: Links, eq: Verdict, cand: Id, canon: Id)
    requires cand < |g| && canon < |g| && WellFormed(g[cand]) && WellFormed(g[canon])
    requires Recorded(h1, canon) && h1[canon] == cand && CheckPair(g[cand], g[canon], resolve) == Descend
    requires AllDecided(g, m, resolve, h1, h, eq, VisitOrder(g[cand]), VisitOrder(g[canon]))
    ensures Forced(g, m, resolve, h1, h, eq)
  {
    hide CheckPair, VisitOrder;
    forall hs: Links | Within(g, m, resolve, h1, hs)
      ensures AllJoined(g, m, hs, VisitOrder(g[cand]), VisitOrder(g[canon]))
    {
      FittingChecks(g, m, resolve, hs, cand, canon);
    }
  }

  /** The next pair of the loop. */
  lemma DecidedNext(g: seq<BtfType>, m: Links, resolve: bool, h0: Links, h1: Links, h: Links, eq: Verdict,
                    cands: seq<Id>, canons: seq<Id>, i: nat)
    requires i < |cands| == |canons| && AllDecided(g, m, resolve, h0, h1, Equal, cands, canons)
    requires Decided(g, m, resolve, h1, h, eq, cands[i], canons[i])
    ensures AllDecided(g, m, resolve, h0, h, eq, cands, canons)
  {
    forall hs: Links | Within(g, m, resolve, h0, hs) && AllJoined(g, m, hs, cands, canons)
      ensures eq != Different && (eq == Equal ==> Extends(h, hs))
    {
      assert Within(g, m, resolve, h1, hs);
      assert Joined(g, m, hs, cands[i], canons[i]);
    }
  }

  /** From nothing the check finds the least bisimulation that joins the pair, or there is none. */
  ghost predicate Least(g: seq<BtfType>, m: Links, resolve: bool, h: Links, cand: Id, canon: Id) {
    && Bisimulation(g, m, resolve, h) && Joined(g, m, h, cand, canon)
    && forall hs: Links :: Bisimulation(g, m, resolve, hs) && Joined(g, m, hs, cand, canon) ==> Extends(h, hs)
  }

  lemma DecidedFromNothing(g: seq<BtfType>, m: Links, resolve: bool, h0: Links, h: Links, eq: Verdict, cand: Id,
                           canon: Id)
    requires Forest(m) && |h0| == |h| == |m| == |g| && (forall c: Id :: !Recorded(h0, c))
    requires Decided(g, m, resolve, h0, h, eq, cand, canon)
    requires eq == Equal ==> NewPairsFit(g, m, resolve, h0, h) && Joined(g, m, h, cand, canon)
    ensures eq == Equal ==> Least(g, m, resolve, h, cand, canon)
    ensures eq == Different ==> !Equivalent(g, m, resolve, cand, canon)
  {
    hide Joined, PairFits, Forest;
    forall hs: Links | Bisimulation(g, m, resolve, hs)
      ensures Within(g, m, resolve, h0, hs)
    {
    }
  }

  lemma NothingDecided(g: seq<BtfType>, m: Links, resolve: bool, h: Links, cands: seq<Id>, canons: seq<Id>)
    ensures AllDecided(g, m, resolve, h, h, Equal, cands, canons)
  {
  }

  lemma SameVisits(cand: BtfType, canon: BtfType)
    requires WellFormed(cand) && WellFormed(canon) && Label(cand) == Label(canon)
    ensures |VisitOrder(cand)| == |VisitOrder(canon)|
  {
    assert |Refs(Label(cand))| == |Refs(Label(canon))|;
  }

  /** Two types with one root are joined whatever is recorded. */
  lemma RootsJoin(g: seq<BtfType>, m: Links, h: Links, cand: Id, canon: Id)
    requires Forest(m) && |h| == |m| == |g| && cand < |g| && canon < |g| && Root(m, cand) == Root(m, canon)
    ensures Joined(g, m, h, cand, canon)
  {
  }

  lemma NoNewPairs(g: seq<BtfType>, m: Links, resolve: bool, h: Links)
    requires Forest(m) && |h| == |m| == |g|
    ensures NewPairsFit(g, m, resolve, h, h) && AllJoined(g, m, h, [], []) && Extends(h, h)
  {
  }

  /** One more pair of the loop is joined, and the earlier ones still are. */
  lemma JoinedAppend(g: seq<BtfType>, m: Links, h1: Links, h2: Links, cands: seq<Id>, canons: seq<Id>, i: nat)
    requires Forest(m) && |h1| == |m| == |g| && Extends(h1, h2) && i < |cands| == |canons|
    requires AllJoined(g, m, h1, cands[..i], canons[..i]) && Joined(g, m, h2, cands[i], canons[i])
    ensures AllJoined(g, m, h2, cands[..i + 1], canons[..i + 1])
  {
    JoinedGrows(g, m, h1, h2, cands[..i], canons[..i]);
    var x, y := cands[..i + 1], canons[..i + 1];
    forall j | 0 <= j < i + 1
      ensures Joined(g, m, h2, x[j], y[j])
    {
      if j < i {
        assert Joined(g, m, h2, cands[..i][j], canons[..i][j]);
      }
    }
  }

  lemma ExtendsTrans(h0: Links, h1: Links, h2: Links)
    requires Extends(h0, h1) && Extends(h1, h2)
    ensures Extends(h0, h2)
  {
  }

  lemma OpenShrinks(h: Links, h': Links)
    requires Extends(h, h')
    ensures Open(h') <= Open(h)
  {
  }

  lemma VisitOrderInRange(g: seq<BtfType>, x: Id)
    requires Closed(g) && x < |g|
    ensures forall i :: 0 <= i < |VisitOrder(g[x])| ==> VisitOrder(g[x])[i] < |g|
  {
    if g[x].info.kind == Array {
      assert Refs(g[x])[0] < |g| && Refs(g[x])[1] < |g|;
    }
  }

  lemma ExtendsLength(h0: Links, h: Links)
    requires Extends(h0, h)
    ensures |h0| == |h|
  {
  }

  /** A pair that is recorded under its forward target is joined from then on. */
  lemma RecordedJoined(g: seq<BtfType>, m: Links, h1: Links, h2: Links, cand: Id, canon: Id)
    requires Forest(m) && |h1| == |m| == |g| && Extends(h1, h2) && cand < |m| && canon < |m|
    requires Recorded(h1, FwdTarget(g, m, canon)) && h1[FwdTarget(g, m, canon)] == cand
    ensures Joined(g, m, h2, cand, canon)
  {
  }
}
