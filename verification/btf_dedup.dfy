/** btf__dedup (btf.c): passes 2 to 4 over the canonical map. */
module BtfDedup {
  import opened BtfTypes
  import opened BtfCompare
  import opened CanonMap
  import opened DedupState
  import opened DedupEquiv
  import opened DedupMerge
  import opened DedupResult
  import opened DedupEnums
  import HashMaps

  /** 0, -EINVAL, -ENOMEM and -ELOOP. */
  datatype Outcome = Done | Invalid | NoMemory | Loop

  /** struct btf_dedup, with the types of the object it works on. */
  class Dedup {
    ghost const input: seq<BtfType>
    const table: HashMaps.HashMap<nat, Id>
    const dontResolveFwds: bool
    var types: seq<BtfType>
    var canon: Links
    var hypot: Links
    var hypotList: seq<Id>

    /** btf_dedup_new: VAR and DATASEC represent themselves from the start. */
    constructor (types: seq<BtfType>, dontResolveFwds: bool, forceCollisions: bool)
      requires Closed(types) && |types| <= MAX_NR_TYPES + 1
      ensures Valid() && fresh(table)
      ensures this.types == input == types && this.dontResolveFwds == dontResolveFwds
      ensures canon == StartMap(types)
    {
      hide Ok, Closed, StartMap;
      this.types, this.input, this.dontResolveFwds := types, types, dontResolveFwds;
      canon := StartMap(types);
      hypot := seq(|types|, _ => UNPROCESSED);
      hypotList := [];
      table := new HashMaps.HashMap(if forceCollisions then _ => 0 else h => h);
      new;
      StartOk(types, !Plain(types, !dontResolveFwds));
    }

    /** Forward declarations are not resolved, or there are none to resolve. */
    ghost predicate Exact() {
      Plain(input, !dontResolveFwds)
    }

    /** A type that FWD resolution has nothing to do with. */
    ghost predicate Clear(x: Id)
      reads this`types
    {
      dontResolveFwds || PlainFrom(types, x)
    }

    ghost function Snapshot(): State
      reads this`types, this`canon, table
    {
      State(input, types, canon, table.Entries(), !Exact())
    }

    /** The part of the invariant that the equivalence check only reads. */
    ghost predicate Settled()
      reads this`types, this`canon, table
    {
      table.Valid() && Ok(Snapshot())
    }

    ghost predicate HypotOk()
      reads this`types, this`hypot, this`hypotList
    {
      |hypot| == |types| && Listed(hypot, hypotList)
    }

    ghost predicate Valid()
      reads this, table
    {
      Settled() && HypotOk()
    }

    lemma Shape()
      requires Settled()
      ensures |types| == |input| == |canon| <= MAX_NR_TYPES + 1
      ensures Closed(types) && Closed(input) && Forest(canon) && LinksOk(input, canon)
      ensures Canonical(canon, 0)
      ensures Exact() || dontResolveFwds ==> Sound(input, canon)
    {
    }

    /** resolve_type_id. */
    method Resolve(id: Id) returns (r: Id)
      requires Forest(canon) && id < |canon|
      ensures r == Root(canon, id)
    {
      r := id;
      ghost var f := Steps(canon, id);
      while Mapped(canon, r) && canon[r] != r
        invariant r < |canon| && Settles(canon, r, f) && Root(canon, r) == Root(canon, id)
        decreases f
      {
        RootUnfold(canon, r);
        r, f := canon[r], f - 1;
      }
      RootUnfold(canon, r);
    }

    /** resolve_fwd_id. */
    method ResolveFwd(id: Id) returns (r: Id)
      requires Settled() && types == input && id < |types|
      ensures |types| == |canon| && Forest(canon) && r == FwdTarget(types, canon, id)
      ensures r < |types| && SameFamily(types[r], types[id])
    {
      if types[id].info.kind != Fwd {
        return id;
      }
      r := Resolve(id);
      RootFamily(input, canon, id);
      if types[r].info.kind != Fwd {
        return r;
      }
      return id;
    }

    /** btf_dedup_hypot_map_add. */
    method HypotAdd(from: Id, to: Id)
      requires Settled() && HypotOk() && from < |hypot| && to < |hypot| && !Recorded(hypot, from)
      modifies this`hypot, this`hypotList
      ensures HypotOk()
      ensures hypot == old(hypot)[from := to] && Recorded(hypot, from)
      ensures Extends(old(hypot), hypot)
      ensures Open(hypot) < Open(old(hypot))
    {
      hypotList := hypotList + [from];
      hypot := hypot[from := to];
      ListedAdd(old(hypot), old(hypotList), from, to);
      assert from in Open(old(hypot)) && from !in Open(hypot);
    }

    /** btf_dedup_clear_hypot_map. */
    method ClearHypot()
      requires HypotOk()
      modifies this`hypot, this`hypotList
      ensures HypotOk()
      ensures forall c: Id :: !Recorded(hypot, c)
    {
      var i := 0;
      assert hypotList[0..] == hypotList;
      while i < |hypotList|
        invariant i <= |hypotList| && hypotList == old(hypotList)
        invariant |hypot| == |types|
        invariant RecordedIn(hypot, hypotList[i..])
      {
        assert hypotList[i..] == [hypotList[i]] + hypotList[i + 1..];
        ClearOne(hypot, hypotList[i], hypotList[i + 1..]);
        hypot := hypot[hypotList[i] := UNPROCESSED];
        i := i + 1;
      }
      hypotList := [];
    }

    /** btf_dedup_is_equiv. Positive: the pairs recorded bear scrutiny and join the two
        types. Zero: no assignment of candidates does. Nothing else is recorded. */
    method IsEquiv(candId: Id, canonId: Id) returns (eq: Verdict)
      requires Settled() && HypotOk() && types == input && candId < |types| && canonId < |types|
      modifies this`hypot, this`hypotList
      ensures HypotOk() && Extends(old(hypot), hypot)
      ensures |types| == |canon| && Forest(canon)
      ensures eq == Equal ==>
                && NewPairsFit(types, canon, !dontResolveFwds, old(hypot), hypot)
                && Joined(types, canon, hypot, candId, canonId)
      ensures Decided(types, canon, !dontResolveFwds, old(hypot), hypot, eq, candId, canonId)
      ensures Orderly() && Usual(types, candId) ==> eq != Failed
      decreases Open(hypot), 0
    {
      hide Orderly, Usual, Ok, Joined, FwdTarget, NewPairsFit, AllJoined, Decided, Forced, Extends, Forest;
      Shape();
      NoNewPairs(types, canon, !dontResolveFwds, hypot);
      DecidedAtOnce(types, canon, !dontResolveFwds, hypot, candId, canonId);
      var r0 := Resolve(candId);
      var r1 := Resolve(canonId);
      if r0 == r1 {
        RootsJoin(types, canon, hypot, candId, canonId);
        return Equal;
      }
      var at := ResolveFwd(canonId);
      NotBothVoid(candId, canonId, at);
      if hypot[at] <= MAX_NR_TYPES {
        eq := if hypot[at] == candId then Equal else Different;
        DecidedAgain(types, canon, !dontResolveFwds, hypot, eq, candId, canonId);
        if eq == Equal {
          RecordedJoined(types, canon, hypot, hypot, candId, canonId);
        }
        return;
      }
      HypotAdd(at, candId);
      ghost var h1 := hypot;
      eq := CheckRecorded(candId, at, old(hypot));
      ExtendsTrans(old(hypot), h1, hypot);
      RecordedJoined(types, canon, h1, hypot, candId, canonId);
      DecidedLater(types, canon, !dontResolveFwds, old(hypot), hypot, eq, candId, canonId);
    }

    /** All kinds are known, and no ordinary type refers to a variable or section. */
    ghost predicate Orderly()
      reads this`types
    {
      OrdinaryRefs(types) && KnownKinds(types)
    }

    lemma NotBothVoid(candId: Id, canonId: Id, at: Id)
      requires Closed(types) && candId < |types| && canonId < |types| && at < |types|
      requires SameFamily(types[at], types[canonId])
      requires candId != canonId
      ensures Orderly() ==> candId != 0 || at != 0
    {
    }

    /** The rest of btf_dedup_is_equiv, for a pair just recorded. */
    method CheckRecorded(candId: Id, at: Id, ghost h0: Links) returns (eq: Verdict)
      requires Settled() && HypotOk() && types == input && candId < |types| && at < |types|
      requires |h0| == |types| && hypot == h0[at := candId] && !Recorded(h0, at)
      requires Orderly() ==> candId != 0 || at != 0
      modifies this`hypot, this`hypotList
      ensures HypotOk() && Extends(old(hypot), hypot)
      ensures |types| == |canon| && Forest(canon)
      ensures eq == Equal ==> NewPairsFit(types, canon, !dontResolveFwds, h0, hypot)
      ensures Forced(types, canon, !dontResolveFwds, old(hypot), hypot, eq)
      ensures Orderly() && Usual(types, candId) ==> eq != Failed
      decreases Open(hypot), 2
    {
      hide Orderly, Usual, Ok, NewPairsFit, AllJoined, AllDecided, Forced, Extends, CheckPair, VisitOrder, Label, Refs,
           Forest;
      Shape();
      NoNewPairs(types, canon, !dontResolveFwds, hypot);
      var check := CheckPair(types[candId], types[at], !dontResolveFwds);
      CheckPairIs(types[candId], types[at], !dontResolveFwds);
      FailsOnKept(candId, at);
      if check.Settled? {
        eq := check.verdict;
        ForcedLeaf(types, canon, !dontResolveFwds, hypot, candId, at);
        if eq == Equal {
          SettleLeaf(types, canon, !dontResolveFwds, h0, candId, at);
        }
      } else {
        RefsAreUsual(candId);
        VisitOrderInRange(types, candId);
        VisitOrderInRange(types, at);
        SameVisits(types[candId], types[at]);
        ghost var h1 := hypot;
        eq := EquivRefs(VisitOrder(types[candId]), VisitOrder(types[at]));
        ForcedNode(types, canon, !dontResolveFwds, h1, hypot, eq, candId, at);
        if eq == Equal {
          SettleNode(types, canon, !dontResolveFwds, h0, hypot, candId, at);
        }
      }
    }

    /** The check fails on variables and sections only, and on void against void. */
    lemma FailsOnKept(candId: Id, at: Id)
      requires Closed(types) && candId < |types| && at < |types|
      ensures (CheckPair(types[candId], types[at], !dontResolveFwds) == LocalCheck.Settled(Failed)
               && Orderly() && Usual(types, candId)) ==>
                candId == 0 && at == 0
    {
      CheckPairIs(types[candId], types[at], !dontResolveFwds);
      hide CheckPair;
    }

    lemma RefsAreUsual(candId: Id)
      requires Closed(types) && candId < |types|
      ensures Orderly() && Usual(types, candId) ==>
                forall i :: 0 <= i < |VisitOrder(types[candId])| ==> Usual(types, VisitOrder(types[candId])[i])
    {
      if Orderly() && Usual(types, candId) {
        RefsUsual(types, candId);
      }
    }

    /** The loops over referenced types of btf_dedup_is_equiv: stop at the first pair that fails. */
    method EquivRefs(cands: seq<Id>, canons: seq<Id>) returns (eq: Verdict)
      requires Settled() && HypotOk() && types == input && |cands| == |canons|
      requires forall i :: 0 <= i < |cands| ==> cands[i] < |types| && canons[i] < |types|
      modifies this`hypot, this`hypotList
      ensures HypotOk() && Extends(old(hypot), hypot)
      ensures |types| == |canon| && Forest(canon)
      ensures eq == Equal ==>
                && NewPairsFit(types, canon, !dontResolveFwds, old(hypot), hypot)
                && AllJoined(types, canon, hypot, cands, canons)
      ensures AllDecided(types, canon, !dontResolveFwds, old(hypot), hypot, eq, cands, canons)
      ensures Orderly() && (forall i :: 0 <= i < |cands| ==> Usual(types, cands[i])) ==> eq != Failed
      decreases Open(hypot), 1
    {
      hide Orderly, Usual, Ok, Joined, NewPairsFit, AllJoined, Decided, AllDecided, Extends, Forest;
      Shape();
      NoNewPairs(types, canon, !dontResolveFwds, hypot);
      NothingDecided(types, canon, !dontResolveFwds, hypot, cands, canons);
      assert cands[..0] == [] && canons[..0] == [];
      for i := 0 to |cands|
        invariant HypotOk() && Extends(old(hypot), hypot) && Open(hypot) <= Open(old(hypot))
        invariant NewPairsFit(types, canon, !dontResolveFwds, old(hypot), hypot)
        invariant AllJoined(types, canon, hypot, cands[..i], canons[..i])
        invariant AllDecided(types, canon, !dontResolveFwds, old(hypot), hypot, Equal, cands, canons)
      {
        ghost var before := hypot;
        eq := IsEquiv(cands[i], canons[i]);
        DecidedNext(types, canon, !dontResolveFwds, old(hypot), before, hypot, eq, cands, canons, i);
        ExtendsTrans(old(hypot), before, hypot);
        if eq != Equal {
          return;
        }
        NewPairsCompose(types, canon, !dontResolveFwds, old(hypot), before, hypot);
        JoinedAppend(types, canon, before, hypot, cands, canons, i);
        OpenShrinks(before, hypot);
      }
      assert cands[..|cands|] == cands && canons[..|cands|] == canons;
      eq := Equal;
    }

    /** The candidate loop of btf_dedup_prim_type: the candidate to map to, or
        the type itself. With FWD resolution a full enum takes over the forward
        enums it meets. */
    method FindPrim(id: Id, cands: seq<Id>) returns (newId: Id)
      requires Settled() && types == input && 0 < id < |types| && |types| == |canon|
      requires IsPrimKind(types[id].info.kind) && !Mapped(canon, id) && FreshFrom(types, canon, id)
      requires WellFormed(types[id])
      requires forall j :: 0 <= j < |cands| ==> HashMaps.Entry(HashOf(types[id]), cands[j]) in table.Entries()
      modifies this`canon
      ensures Settled() && Found(old(canon), id, newId, cands)
      ensures Searched(types, !dontResolveFwds, old(canon), canon, id, cands, newId)
    {
      hide *;
      Shape();
      SearchBegins(id, cands);
      newId := id;
      for i := 0 to |cands|
        invariant Settled() && Searching(old(canon), id, cands, i) && newId == id
      {
        ghost var before := canon;
        SearchingParts(old(canon), id, cands, i);
        var take := TryPrim(id, cands[i], old(canon));
        if take {
          SearchEnds(old(canon), id, cands, i, cands[i]);
          return cands[i];
        }
        SearchGoesOn(old(canon), before, id, cands, i);
      }
      SearchEnds(old(canon), id, cands, |cands|, id);
    }

    /** The search has tried i candidates in vain. */
    ghost predicate Searching(m0: Links, id: Id, cands: seq<Id>, i: nat)
      reads this`types, this`canon
    {
      && Redirected(types, m0, canon, id) && id < |types| == |canon| == |m0| && !Mapped(canon, id) && Forest(canon)
      && MayRedirect(m0, id) && i <= |cands|
      && (forall j :: 0 <= j < i ==> cands[j] < |types| && !TakenFor(types, !dontResolveFwds, id, cands[j]))
      && TakesOver(types, !dontResolveFwds, m0, canon, id, cands[..i])
    }

    lemma SearchBegins(id: Id, cands: seq<Id>)
      requires id < |types| == |canon| && !Mapped(canon, id) && Forest(canon)
      ensures Searching(canon, id, cands, 0)
    {
      RedirectedRefl(types, canon, id);
      NothingTaken(types, !dontResolveFwds, canon, id);
      assert cands[..0] == [];
    }

    lemma SearchingParts(m0: Links, id: Id, cands: seq<Id>, i: nat)
      requires Searching(m0, id, cands, i)
      ensures Redirected(types, m0, canon, id) && id < |types| == |canon| == |m0| && !Mapped(canon, id)
      ensures Forest(canon) && MayRedirect(m0, id) && i <= |cands|
      ensures forall j :: 0 <= j < i ==> cands[j] < |types| && !TakenFor(types, !dontResolveFwds, id, cands[j])
      ensures TakesOver(types, !dontResolveFwds, m0, canon, id, cands[..i])
    {
    }

    lemma SearchGoesOn(m0: Links, m: Links, id: Id, cands: seq<Id>, i: nat)
      requires i < |cands| && cands[i] < |types| && id < |types| && |m| == |types|
      requires |m0| == |types| && TakesOver(types, !dontResolveFwds, m0, m, id, cands[..i])
      requires forall j :: 0 <= j < i ==> cands[j] < |types| && !TakenFor(types, !dontResolveFwds, id, cands[j])
      requires !TakenFor(types, !dontResolveFwds, id, cands[i])
      requires canon == if !dontResolveFwds && IsFull(types[id]) && StandsFor(types[cands[i]], types[id])
                        then m[cands[i] := id] else m
      requires Redirected(types, m0, canon, id) && !Mapped(canon, id) && Forest(canon) && MayRedirect(m0, id)
      ensures Searching(m0, id, cands, i + 1)
    {
      hide Forest, Redirected, TakesOver, TakenFor, StandsFor, MayRedirect;
      TakenNext(types, !dontResolveFwds, m0, m, canon, id, cands, i);
    }

    lemma SearchEnds(m0: Links, id: Id, cands: seq<Id>, i: nat, newId: Id)
      requires Searching(m0, id, cands, i)
      requires newId == if i < |cands| then cands[i] else id
      requires i < |cands| ==> newId < id && Root(canon, newId) != id && LinkOk(types[id], types[newId])
      requires i < |cands| ==> TakenFor(types, !dontResolveFwds, id, newId)
      requires i < |cands| && Exact() ==> Canonical(canon, newId) && types[id] == types[newId]
      ensures Found(m0, id, newId, cands) && Searched(types, !dontResolveFwds, m0, canon, id, cands, newId)
    {
      hide Forest, Redirected, TakesOver, StandsFor, LinkOk, Canonical, Exact, Root;
      assert SearchedTo(types, !dontResolveFwds, m0, canon, id, cands, newId, i);
    }

    /** What the search of the candidates leaves behind. */
    ghost predicate Found(m0: Links, id: Id, newId: Id, cands: seq<Id>)
      reads this`types, this`canon
    {
      && id < |types| == |canon| && newId <= id && Forest(canon) && Redirected(types, m0, canon, id)
      && !Mapped(canon, id)
      && (newId == id ==> forall j :: 0 <= j < |cands| ==> cands[j] < |types| && types[cands[j]] != types[id])
      && (newId != id ==> Root(canon, newId) != id && LinkOk(types[id], types[newId]))
      && (newId != id && Exact() ==> Canonical(canon, newId) && types[id] == types[newId])
    }

    /** Only a full enum, with FWD resolution on, changes the map while it looks for a candidate. */
    ghost predicate MayRedirect(m0: Links, id: Id)
      requires id < |types|
      reads this`types, this`canon
    {
      canon == m0 || (!Exact() && types[id].info.kind == Enum && !IsEnumFwd(types[id]))
    }

    /** One round of the candidate loop of btf_dedup_prim_type. */
    method TryPrim(id: Id, candId: Id, ghost m0: Links) returns (take: bool)
      requires Settled() && types == input && 0 < id < |types| && |types| == |canon|
      requires IsPrimKind(types[id].info.kind) && !Mapped(canon, id) && Forest(canon) && WellFormed(types[id])
      requires |m0| == |types| && FreshFrom(types, m0, id) && Redirected(types, m0, canon, id) && MayRedirect(m0, id)
      requires HashMaps.Entry(HashOf(types[id]), candId) in table.Entries()
      modifies this`canon
      ensures Settled() && Redirected(types, m0, canon, id) && !Mapped(canon, id)
      ensures Forest(canon) && |canon| == |types| && MayRedirect(m0, id) && candId < |types|
      ensures !take ==> types[candId] != types[id]
      ensures take ==> candId < id && Root(canon, candId) != id && LinkOk(types[id], types[candId])
      ensures take && Exact() ==> Canonical(canon, candId) && types[id] == types[candId]
      ensures take <==> TakenFor(types, !dontResolveFwds, id, candId)
      ensures take ==> canon == old(canon)
      ensures canon == if !dontResolveFwds && IsFull(types[id]) && StandsFor(types[candId], types[id])
                       then old(canon)[candId := id] else old(canon)
    {
      hide Ok, Closed, SameLabels, LinksOk, Sound, FilingsOk, AllFiled, NoTwins, RefsRooted, HashOf, Root, Forest,
           FreshFrom;
      Shape();
      DrawnCandidate(HashOf(types[id]), candId);
      EarlierCandidate(m0, id, candId);
      var t, cand := types[id], types[candId];
      EqualFiledIsIdentity(t, cand);
      if EqualFiled(t, cand) {
        RootElsewhere(m0, id, candId);
        return true;
      }
      if t.info.kind == Enum && !dontResolveFwds && CompatEnum(t, cand) {
        ExactPair(id, candId);
        if IsEnumFwd(t) {
          RootElsewhere(m0, id, candId);
          return true;
        }
        LinkForward(Snapshot(), candId, id);
        canon := canon[candId := id];
        Shape();
      }
      return false;
    }

    lemma ExactPair(x: Id, y: Id)
      requires types == input && x < |types| && y < |types|
      ensures Exact() ==> dontResolveFwds || (!IsForward(types[x]) && !IsForward(types[y]))
    {
    }

    lemma EarlierCandidate(m0: Links, id: Id, cand: Id)
      requires |types| == |m0| && FreshFrom(types, m0, id) && Redirected(types, m0, canon, id) && id < |types|
      requires cand < |types| && Mapped(canon, cand) && !IsKept(types[cand].info.kind) && !Mapped(canon, id)
      ensures cand < id && Mapped(m0, cand)
    {
    }

    /** A candidate's walk does not end at the type under consideration. */
    lemma RootElsewhere(m0: Links, id: Id, cand: Id)
      requires |types| == |canon| == |m0| && FreshFrom(types, m0, id) && Forest(canon) && id < |canon| && cand < id
      requires !Mapped(canon, id)
      requires canon == m0 || Canonical(canon, cand)
      ensures Root(canon, cand) != id
    {
      if canon == m0 {
        NobodyLinks(types, canon, id, cand);
      } else {
        RootUnfold(canon, cand);
      }
    }

    /** d->map[id] = newId for a type that is not mapped yet. */
    method LinkTo(id: Id, newId: Id)
      requires Settled() && |input| == |types| == |canon| && 0 < id < |types| && newId < |types| && id != newId
      requires !Mapped(canon, id) && Forest(canon) && Root(canon, newId) != id
      requires LinkOk(input[id], input[newId])
      requires Exact() ==> Canonical(canon, newId) && Alike(input, id, input, newId)
      modifies this`canon
      ensures Settled() && canon == old(canon)[id := newId]
    {
      hide Ok;
      LinkCandidate(Snapshot(), id, newId);
      canon := canon[id := newId];
    }

    /** btf_dedup_prim_type. */
    method PrimType(id: Id) returns (r: Outcome)
      requires Valid() && types == input && 0 < id < |types| && |types| == |canon| && FreshFrom(types, canon, id)
      modifies this`canon, table
      ensures r == Done ==> Valid() && |canon| == |types| && FreshFrom(types, canon, id + 1)
      ensures r == Done ==> types[id].info.kind != Unkn && PrimStep(types, old(canon), canon, id)
      ensures r == Done ==> Forest(canon) && Forest(old(canon)) && |old(canon)| == |types|
      ensures r == Done && !dontResolveFwds && PrimsUpTo(types, old(canon), id) ==>
                EnumsResolved(types, old(canon), id) ==> EnumsResolved(types, canon, id + 1)
      ensures r != Loop && (r == Invalid ==> types[id].info.kind == Unkn)
    {
      Shape();
      hide *;
      var kind := types[id].info.kind;
      if kind == Unkn {
        return Invalid;
      }
      if !IsPrimKind(kind) {
        NotPrim(id);
        return Done;
      }
      IsPrim(id);
      r := PlacePrim(id);
    }

    lemma NotPrim(id: Id)
      requires id < |types| == |canon| && FreshFrom(types, canon, id) && Forest(canon)
      requires !IsPrimKind(types[id].info.kind)
      ensures FreshFrom(types, canon, id + 1) && PrimStep(types, canon, canon, id)
      ensures EnumsResolved(types, canon, id) ==> EnumsResolved(types, canon, id + 1)
    {
      FreshSkip(types, canon, id);
      PrimStepSkip(types, canon, id);
      hide FreshFrom, PrimStep, Forest, EnumsResolved;
      if EnumsResolved(types, canon, id) {
        EnumsSkip(types, canon, id);
      }
    }

    lemma IsPrim(id: Id)
      requires id < |types| == |canon| && Closed(types) && FreshFrom(types, canon, id)
      requires IsPrimKind(types[id].info.kind)
      ensures WellFormed(types[id]) && !IsKept(types[id].info.kind) && !IsComposite(types[id].info.kind)
      ensures !Mapped(canon, id)
    {
      FreshUnmapped(types, canon, id);
    }

    /** Map the type to a candidate or make it one. */
    method PlacePrim(id: Id) returns (r: Outcome)
      requires Valid() && types == input && 0 < id < |types| && |types| == |canon| && FreshFrom(types, canon, id)
      requires IsPrimKind(types[id].info.kind) && !IsKept(types[id].info.kind) && !Mapped(canon, id)
      requires WellFormed(types[id])
      modifies this`canon, table
      ensures r == Done ==> Valid() && |canon| == |types| && FreshFrom(types, canon, id + 1)
      ensures r == Done ==> PrimStep(types, old(canon), canon, id)
      ensures Forest(old(canon)) && |old(canon)| == |types|
      ensures r == Done ==> Forest(canon)
      ensures r == Done && !dontResolveFwds && PrimsUpTo(types, old(canon), id) ==>
                EnumsResolved(types, old(canon), id) ==> EnumsResolved(types, canon, id + 1)
      ensures r == Done || r == NoMemory
    {
      hide *;
      ValidParts();
      Shape();
      var h := HashOf(types[id]);
      var cands := table.KeyEntries(h);
      assert forall j :: 0 <= j < |cands| ==> multiset(cands)[cands[j]] > 0;
      CandidatesDrawn(id, h, cands);
      var newId := FindPrim(id, cands);
      ghost var m1 := canon;
      r := SettlePrim(id, newId, h, cands, old(canon));
      if r == Done {
        ValidParts();
        Shape();
        if !dontResolveFwds && PrimsUpTo(types, old(canon), id) && EnumsResolved(types, old(canon), id) {
          PrimEnums(old(canon), m1, id, cands, newId);
        }
      }
    }

    lemma ValidParts()
      ensures Valid() <==> Settled() && HypotOk()
      ensures Settled() ==> table.Valid()
    {
      hide Ok, Listed;
    }

    /** The end of btf_dedup_prim_type. */
    method SettlePrim(id: Id, newId: Id, h: nat, ghost cands: seq<Id>, ghost m0: Links) returns (r: Outcome)
      requires Settled() && types == input && 0 < id < |types| && |types| == |m0|
      requires FreshFrom(types, m0, id) && IsPrimKind(types[id].info.kind)
      requires WellFormed(types[id]) && !IsKept(types[id].info.kind) && h == HashOf(types[id])
      requires forall v: Id :: multiset(cands)[v] == table.Entries()[HashMaps.Entry(h, v)]
      requires Found(m0, id, newId, cands)
      modifies this`canon, table
      ensures r == Done || r == NoMemory
      ensures r == Done ==> Settled() && |old(canon)| == |types| && newId <= id && canon == old(canon)[id := newId]
      ensures r == Done ==> FreshFrom(types, canon, id + 1) && PrimStep(types, m0, canon, id)
    {
      hide *;
      FoundStep(m0, id, newId, cands);
      if newId != id {
        TwinsMeanTheSame(id, newId);
        LinkTo(id, newId);
        r := Done;
      } else {
        AllDrawn(id, h, cands);
        r := FileSelf(id, h);
      }
    }

    lemma FoundStep(m0: Links, id: Id, newId: Id, cands: seq<Id>)
      requires Settled() && types == input && 0 < id < |types| && |types| == |m0|
      requires FreshFrom(types, m0, id) && IsPrimKind(types[id].info.kind)
      requires Found(m0, id, newId, cands)
      ensures |types| == |canon| == |input| && Forest(canon) && newId <= id && !Mapped(canon, id)
      ensures newId == id ==> forall j :: 0 <= j < |cands| ==> cands[j] < |types| && types[cands[j]] != types[id]
      ensures newId != id ==> Root(canon, newId) != id && LinkOk(input[id], input[newId])
      ensures newId != id && Exact() ==> Canonical(canon, newId) && types[id] == types[newId]
      ensures FreshFrom(types, canon[id := newId], id + 1) && PrimStep(types, m0, canon[id := newId], id)
    {
      hide Ok, FreshFrom, PrimStep, Redirected, LinkOk, Root, Forest, Exact, Canonical, Mapped;
      Shape();
      FreshNext(types, m0, canon, id, newId);
      PrimStepSet(types, m0, canon, id, newId);
    }

    lemma CandidatesDrawn(id: Id, h: nat, cands: seq<Id>)
      requires Settled() && id < |types| == |canon| && WellFormed(types[id]) && h == HashOf(types[id])
      requires forall v: Id :: multiset(cands)[v] == table.Entries()[HashMaps.Entry(h, v)]
      ensures Closed(types) && Drawn(types, canon, id, cands)
    {
      hide HashOf;
      forall c: Id | ShouldBeFiled(types, canon, c) && HashOf(types[c]) == HashOf(types[id])
        ensures c in cands
      {
        assert multiset(cands)[c] > 0;
      }
    }

    lemma PrimEnums(m0: Links, m1: Links, id: Id, cands: seq<Id>, newId: Id)
      requires |types| == |m0| == |m1| == |canon| <= MAX_NR_TYPES + 1 && Closed(types) && Forest(m0)
      requires LinksOk(types, m0) && 0 < id < |types| && !Mapped(m0, id) && newId <= id
      requires canon == m1[id := newId] && Forest(canon) && LinksOk(types, canon)
      requires FreshFrom(types, m0, id) && PrimsUpTo(types, m0, id) && Drawn(types, m0, id, cands)
      requires Searched(types, true, m0, m1, id, cands, newId) && EnumsResolved(types, m0, id)
      ensures EnumsResolved(types, canon, id + 1)
    {
      hide Forest, LinksOk, Closed, FreshFrom, PrimsUpTo, Drawn, SearchedTo, EnumsResolved;
      var n: nat :| SearchedTo(types, true, m0, m1, id, cands, newId, n);
      EnumsNext(types, m0, m1, id, cands, newId, n);
    }

    lemma TwinsMeanTheSame(x: Id, y: Id)
      requires x < |types| && y < |types|
      ensures types[x] == types[y] ==> Alike(types, x, types, y)
    {
      if types[x] == types[y] {
        TwinsAlike(types, x, y);
      }
    }

    /** What the loop says of all drawn candidates holds of all filed ones. */
    lemma AllDrawn(id: Id, h: nat, cands: seq<Id>)
      requires Settled() && id < |types|
      requires forall v: Id :: multiset(cands)[v] == table.Entries()[HashMaps.Entry(h, v)]
      requires forall j :: 0 <= j < |cands| ==> cands[j] < |types| && types[cands[j]] != types[id]
      ensures forall e :: e in table.Entries() && e.key == h ==> e.value < |types| && types[e.value] != types[id]
    {
      forall e | e in table.Entries() && e.key == h
        ensures e.value < |types| && types[e.value] != types[id]
      {
        assert e == HashMaps.Entry(h, e.value);
        assert multiset(cands)[e.value] > 0;
        assert e.value in cands;
      }
    }

    /** What a positive equivalence check leaves behind. */
    ghost predicate PairsMatch()
      reads this`types, this`hypot
    {
      && |hypot| == |types|
      && (forall c: Id :: Recorded(hypot, c) && hypot[c] < |types| ==> SameFamily(types[hypot[c]], types[c]))
      && (Exact() ==> forall c: Id :: Recorded(hypot, c) ==> Alike(types, hypot[c], types, c))
    }

    /** btf_dedup_merge_hypot_map. */
    method MergeHypot(ghost id: Id)
      requires Settled() && HypotOk() && types == input && PairsMatch()
      modifies this`canon
      ensures Settled() && Progress(types, old(canon), canon, id)
      ensures AllMerged(types, old(canon), canon, hypot)
    {
      hide Ok, Progress, MergedPair, Forest, Listed;
      Shape();
      ProgressRefl(types, canon, id);
      ghost var ms := [canon];
      assert hypotList[..0] == [];
      for i := 0 to |hypotList|
        invariant Settled() && Progress(types, old(canon), canon, id) && Forest(canon) && |canon| == |types|
        invariant MergeRun(types, hypot, hypotList[..i], ms) && ms[0] == old(canon) && ms[i] == canon
      {
        ghost var before := canon;
        IsListed(i);
        MergePair(hypotList[i], id);
        Shape();
        ProgressTrans(types, old(canon), before, canon, id);
        MergeRunNext(types, hypot, hypotList[..i], ms, hypotList[i], canon);
        ms := ms + [canon];
        assert hypotList[..i] + [hypotList[i]] == hypotList[..i + 1];
      }
      assert hypotList[..|hypotList|] == hypotList;
    }

    lemma IsListed(i: nat)
      requires HypotOk() && i < |hypotList|
      ensures Recorded(hypot, hypotList[i])
    {
    }

    /** One round of the loop of btf_dedup_merge_hypot_map. */
    method MergePair(candTypeId: Id, ghost id: Id)
      requires Settled() && HypotOk() && types == input && PairsMatch() && Recorded(hypot, candTypeId)
      modifies this`canon
      ensures Settled() && Progress(types, old(canon), canon, id)
      ensures |canon| == |old(canon)| == |types| == |hypot| && Forest(old(canon)) && Forest(canon)
      ensures candTypeId < |types| && hypot[candTypeId] < |types|
      ensures MergedPair(types, old(canon), canon, hypot[candTypeId], candTypeId)
    {
      hide Ok, Progress, Sound, LinksOk, Label, Refs, Unfold, Root, Closed, Forest, PairsMatch, MergedPair;
      Shape();
      ProgressRefl(types, canon, id);
      var targTypeId := hypot[candTypeId];
      var tId := Resolve(targTypeId);
      var cId := Resolve(candTypeId);
      var tKind := types[tId].info.kind;
      var cKind := types[cId].info.kind;
      RootsMatch(candTypeId, tId, cId);
      NothingMergedYet(candTypeId, tId, cId);
      if tKind != Fwd && cKind == Fwd {
        LinkMerges(types, canon, targTypeId, candTypeId, cId, tId);
        LinkForward(Snapshot(), cId, tId);
        ProgressLink(types, canon, cId, tId, id);
        canon := canon[cId := tId];
      } else if tKind == Fwd && cKind != Fwd {
        LinkMerges(types, canon, targTypeId, candTypeId, tId, cId);
        LinkForward(Snapshot(), tId, cId);
        ProgressLink(types, canon, tId, cId, id);
        canon := canon[tId := cId];
      }
      if IsComposite(tKind) && cKind != Fwd && Mapped(canon, cId) && !Mapped(canon, tId) {
        RootUnfold(canon, cId);
        LinkMerges(types, canon, targTypeId, candTypeId, tId, cId);
        LinkCandidate(Snapshot(), tId, cId);
        ProgressLink(types, canon, tId, cId, id);
        canon := canon[tId := cId];
      }
    }

    lemma NothingMergedYet(c: Id, tId: Id, cId: Id)
      requires Settled() && HypotOk() && types == input && Recorded(hypot, c)
      requires Forest(canon) && |canon| == |types| && tId == Root(canon, hypot[c]) && cId == Root(canon, c)
      ensures WillJoin(types, canon, hypot[c], c) <==>
                || tId == cId || (types[tId].info.kind == Fwd) != (types[cId].info.kind == Fwd)
                || (IsComposite(types[tId].info.kind) && types[cId].info.kind != Fwd
                    && Mapped(canon, cId) && !Mapped(canon, tId))
      ensures tId == cId || !WillJoin(types, canon, hypot[c], c) ==>
                MergedPair(types, canon, canon, hypot[c], c)
    {
      hide Ok;
      if tId == cId || !WillJoin(types, canon, hypot[c], c) {
        NothingMerged(types, canon, hypot[c], c);
      }
    }

    /** The roots of a recorded pair are of one family; without FWD resolution, they mean the same. */
    lemma RootsMatch(c: Id, tId: Id, cId: Id)
      requires Settled() && HypotOk() && types == input && PairsMatch() && Recorded(hypot, c)
      requires Forest(canon) && |canon| == |types| && tId == Root(canon, hypot[c]) && cId == Root(canon, c)
      ensures SameFamily(types[tId], types[cId])
      ensures Exact() ==> Alike(types, tId, types, cId)
      ensures Exact() ==> Label(types[tId]) == Label(types[cId])
    {
      var t := hypot[c];
      RootFamily(types, canon, t);
      RootFamily(types, canon, c);
      if Exact() {
        SoundRoot(types, canon, t);
        SoundRoot(types, canon, c);
        AlikeSym(types, t, types, tId);
        AlikeTrans(types, tId, types, t, types, c);
        AlikeTrans(types, tId, types, c, types, cId);
        AlikeParts(types, tId, types, cId);
      }
    }

    /** d->map[id] = id, then btf_dedup_table_add. */
    method FileSelf(id: Id, h: nat) returns (r: Outcome)
      requires Settled() && 0 < id < |types| && |types| == |canon| && !Mapped(canon, id)
      requires WellFormed(types[id]) && !IsKept(types[id].info.kind) && h == HashOf(types[id])
      requires IsComposite(types[id].info.kind) ||
               forall e :: e in table.Entries() && e.key == h ==> types[e.value] != types[id]
      modifies this`canon, table
      ensures r == Done || r == NoMemory
      ensures r == Done ==> Settled() && canon == old(canon)[id := id]
    {
      hide Ok;
      FileNew(Snapshot(), id);
      canon := canon[id := id];
      var status, _ := table.Insert(h, id, HashMaps.Append);
      r := if status == HashMaps.Ok then Done else NoMemory;
    }

    /** What a candidate drawn from the index under a hash is. */
    lemma DrawnCandidate(h: nat, cand: Id)
      requires Settled() && HashMaps.Entry(h, cand) in table.Entries()
      ensures 0 < cand < |types| && |types| == |canon| == |input|
      ensures WellFormed(types[cand]) && h == HashOf(types[cand]) && Mapped(canon, cand)
      ensures !IsKept(types[cand].info.kind)
      ensures Exact() || !IsForward(types[cand]) ==> Canonical(canon, cand)
    {
      assert FilingOk(types, canon, !Exact(), HashMaps.Entry(h, cand));
    }

    /** After a positive check every recorded pair matches, and so do the two types themselves. */
    lemma CheckMeans(candId: Id, canonId: Id)
      requires Settled() && types == input && candId < |types| && canonId < |types|
      requires Least(types, canon, !dontResolveFwds, hypot, candId, canonId)
      ensures PairsMatch()
      ensures Exact() ==> Alike(types, candId, types, canonId)
    {
      Shape();
      hide Ok, Settled, Sound, Alike, Joined, PairFits, SameFamily, Forest, NoForwards;
      assert Bisimulation(types, canon, !dontResolveFwds, hypot);
      forall c: Id | Recorded(hypot, c) && hypot[c] < |types|
        ensures SameFamily(types[hypot[c]], types[c])
      {
        FittingIsKin(types, canon, !dontResolveFwds, hypot, c);
      }
      if Exact() {
        BisimulationIsMeaning(types, canon, !dontResolveFwds, hypot, candId, canonId);
        forall c: Id | Recorded(hypot, c)
          ensures Alike(types, hypot[c], types, c)
        {
          RecordedIsMeaning(types, canon, !dontResolveFwds, hypot, c);
        }
      }
    }

    /** The struct cannot be taken for the candidate, or that is none. */
    ghost predicate Refused(id: Id, cand: Id)
      reads this`types, this`canon
    {
      !(IsStructRoot(types, canon, cand) && Equivalent(types, canon, !dontResolveFwds, id, cand))
    }

    /** One round of the loop of btf_dedup_struct_type. */
    method TryStruct(id: Id, candId: Id) returns (eq: Verdict)
      requires Valid() && types == input && 0 < id < |types| && !Mapped(canon, id)
      requires IsComposite(types[id].info.kind)
      requires HashMaps.Entry(HashOf(types[id]), candId) in table.Entries()
      modifies this`canon, this`hypot, this`hypotList
      ensures Valid() && Progress(types, old(canon), canon, 0)
      ensures eq != Equal ==> canon == old(canon)
      ensures eq == Equal ==> Canonical(canon, candId) && old(IsStructRoot(types, canon, candId))
      ensures eq == Equal ==> LinkOk(types[id], types[candId])
      ensures eq == Equal && Exact() ==> Alike(types, id, types, candId)
      ensures eq == Equal ==> StructMerged(types, old(canon), canon, !dontResolveFwds, id, candId)
      ensures eq == Different ==> Refused(id, candId)
      ensures Orderly() ==> eq != Failed
    {
      hide *;
      ValidParts();
      Shape();
      StructCandidate(id, candId);
      ProgressRefl(types, canon, 0);
      if !ShallowEqualStruct(types[id], types[candId]) {
        return Different;
      }
      eq := CheckStruct(id, candId);
    }

    /** A candidate of another shape is different; one of the same shape may be linked to. */
    lemma StructCandidate(id: Id, candId: Id)
      requires Settled() && 0 < id < |types| && IsComposite(types[id].info.kind) && |types| == |canon|
      requires !Mapped(canon, id)
      requires HashMaps.Entry(HashOf(types[id]), candId) in table.Entries()
      ensures candId < |types| && Usual(types, id) && WellFormed(types[id])
      ensures WellFormed(types[candId])
      ensures !ShallowEqualStruct(types[id], types[candId]) ==> Refused(id, candId)
      ensures ShallowEqualStruct(types[id], types[candId]) ==>
                LinkOk(types[id], types[candId]) && IsStructRoot(types, canon, candId)
    {
      hide Ok, LinksOk, Sound, LinkOk, Refused, ShallowEqualStruct, HashOf, Label, Refs, Forest, Alike;
      Shape();
      DrawnCandidate(HashOf(types[id]), candId);
      ShapesTell(id, candId);
    }

    /** Structs of different shape are different; those of one shape may be linked. */
    lemma ShapesTell(id: Id, candId: Id)
      requires Closed(types) && id < |types| && candId < |types| && IsComposite(types[id].info.kind)
      requires |canon| == |types| && Forest(canon) && !Mapped(canon, id)
      ensures !ShallowEqualStruct(types[id], types[candId]) ==> Refused(id, candId)
      ensures ShallowEqualStruct(types[id], types[candId]) ==>
                LinkOk(types[id], types[candId]) && IsComposite(types[candId].info.kind)
    {
      StructLabel(types[id], types[candId]);
      if !Refused(id, candId) {
        AlikeInShape(id, candId);
      }
    }

    lemma AlikeInShape(id: Id, c: Id)
      requires |canon| == |types| && Forest(canon) && id < |types| && !Mapped(canon, id)
      requires IsComposite(types[id].info.kind) && !Refused(id, c)
      ensures c < |types| && Label(types[id]) == Label(types[c])
    {
      RootUnfold(canon, id);
      RootUnfold(canon, c);
      EquivalentStructs(types, canon, !dontResolveFwds, id, c);
    }

    /** The check proper, from a cleared map, and what is done when it succeeds. */
    method CheckStruct(id: Id, candId: Id) returns (eq: Verdict)
      requires Valid() && types == input && 0 < id < |types| == |canon| && Usual(types, id)
      requires IsStructRoot(types, canon, candId)
      modifies this`canon, this`hypot, this`hypotList
      ensures Valid() && Progress(types, old(canon), canon, 0) && Canonical(canon, candId)
      ensures eq != Equal ==> canon == old(canon)
      ensures eq == Equal && Exact() ==> Alike(types, id, types, candId)
      ensures eq == Equal ==> StructMerged(types, old(canon), canon, !dontResolveFwds, id, candId)
      ensures eq == Different ==> Refused(id, candId)
      ensures Orderly() ==> eq != Failed
    {
      hide Orderly, Usual, Ok, Unfold, Label, Refs, Root, NewPairsFit, Joined, Decided, Least, Equivalent, AllMerged,
           Extends, Sound, LinksOk, Forest, Alike, Listed;
      Shape();
      ProgressRefl(types, canon, 0);
      ClearHypot();
      ghost var h0 := hypot;
      eq := IsEquiv(id, candId);
      ExtendsLength(h0, hypot);
      DecidedFromNothing(types, canon, !dontResolveFwds, h0, hypot, eq, id, candId);
      if eq == Equal {
        CheckMeans(id, candId);
        MergeHypot(0);
      }
    }

    /** The candidate loop of btf_dedup_struct_type: the first candidate that
        passes the check, or the type itself. */
    method FindStruct(id: Id, cands: seq<Id>) returns (failed: bool, newId: Id)
      requires Valid() && types == input && 0 < id < |types| && !Mapped(canon, id)
      requires IsComposite(types[id].info.kind)
      requires forall j :: 0 <= j < |cands| ==> HashMaps.Entry(HashOf(types[id]), cands[j]) in table.Entries()
      modifies this`canon, this`hypot, this`hypotList
      ensures Valid() && Progress(types, old(canon), canon, 0)
      ensures newId == id ==> canon == old(canon)
      ensures !failed && newId == id ==> forall j :: 0 <= j < |cands| ==> Refused(id, cands[j])
      ensures newId != id ==> newId < |types| && Canonical(canon, newId) && LinkOk(types[id], types[newId])
      ensures newId != id && Exact() ==> Alike(types, id, types, newId)
      ensures newId != id ==>
                && old(IsStructRoot(types, canon, newId))
                && StructMerged(types, old(canon), canon, !dontResolveFwds, id, newId)
      ensures Orderly() ==> !failed
    {
      hide Orderly, Ok, Alike, Progress, Listed, HashOf, Forest, Refused, LinkOk, StructMerged;
      Shape();
      ProgressRefl(types, canon, 0);
      newId := id;
      failed := false;
      for i := 0 to |cands|
        invariant Valid() && Progress(types, old(canon), canon, 0)
        invariant canon == old(canon) && newId == id
        invariant forall j :: 0 <= j < i ==> Refused(id, cands[j])
      {
        Shape();
        DrawnCandidate(HashOf(types[id]), cands[i]);
        var eq := TryStruct(id, cands[i]);
        if eq == Failed {
          return true, id;
        }
        if eq == Equal {
          return false, cands[i];
        }
      }
    }

    /** btf_dedup_struct_type. */
    method StructType(id: Id) returns (r: Outcome)
      requires Valid() && types == input && 0 < id < |types|
      modifies this`canon, this`hypot, this`hypotList, table
      ensures r == Done ==> Valid() && Progress(types, old(canon), canon, id)
      ensures r == Done && IsComposite(types[id].info.kind) ==> Mapped(canon, id)
      ensures r == Done ==> StructStep(types, old(canon), canon, !dontResolveFwds, id)
      ensures r != Loop && (Orderly() ==> r != Invalid)
    {
      hide Orderly, Ok, Alike, Progress, Listed, HashOf, Forest, Refused, LinkOk, Sound, LinksOk, Closed, StructMerged,
           Equivalent;
      Shape();
      ProgressRefl(types, canon, id);
      var t := types[id];
      if Mapped(canon, id) || !IsComposite(t.info.kind) {
        return Done;
      }
      var h := HashOf(t);
      var cands := table.KeyEntries(h);
      assert forall j :: 0 <= j < |cands| ==> multiset(cands)[cands[j]] > 0;
      var failed, newId := FindStruct(id, cands);
      if failed {
        return Invalid;
      }
      Shape();
      if newId != id {
        ghost var m1 := canon;
        MapStruct(id, newId, old(canon));
        StructJoined(types, old(canon), m1, !dontResolveFwds, id, newId);
        return Done;
      }
      r := FileStruct(id, h, cands);
    }

    /** A struct that all candidates were refused for represents itself. */
    method FileStruct(id: Id, h: nat, ghost cands: seq<Id>) returns (r: Outcome)
      requires Valid() && types == input && 0 < id < |types| == |canon| && !Mapped(canon, id) && Canonical(canon, 0)
      requires WellFormed(types[id]) && IsComposite(types[id].info.kind) && h == HashOf(types[id])
      requires forall v :: multiset(cands)[v] == table.Entries()[HashMaps.Entry(h, v)]
      requires forall j :: 0 <= j < |cands| ==> Refused(id, cands[j])
      modifies this`canon, table
      ensures r == Done || r == NoMemory
      ensures r == Done ==> Valid() && Progress(types, old(canon), canon, id) && Mapped(canon, id)
      ensures r == Done ==> StructStep(types, old(canon), canon, !dontResolveFwds, id)
    {
      hide Ok, Alike, Progress, Listed, HashOf, Forest, Refused, LinkOk, Sound, LinksOk, Closed, Equivalent;
      Shape();
      AllRefused(id, h, cands);
      ProgressRefl(types, canon, 0);
      ProgressSet(types, canon, canon, id, id);
      r := FileSelf(id, h);
    }

    /** d->map[type_id] = new_id, for a struct that is equivalent to another. */
    method MapStruct(id: Id, newId: Id, ghost m0: Links)
      requires Valid() && types == input && 0 < id < |types| && |types| == |canon| == |m0| && newId < |types|
      requires newId != id
      requires Progress(types, m0, canon, 0) && !Mapped(m0, id) && Canonical(m0, 0) && IsComposite(types[id].info.kind)
      requires Canonical(canon, newId) && LinkOk(types[id], types[newId])
      requires Exact() ==> Alike(types, id, types, newId)
      modifies this`canon
      ensures Valid() && Progress(types, m0, canon, id) && Mapped(canon, id) && canon == old(canon)[id := newId]
    {
      hide Ok, Alike, Progress, Listed, Forest, LinkOk, Sound, LinksOk, Closed;
      Shape();
      NotYetCanonical(types, m0, canon, id);
      LinkStruct(Snapshot(), id, newId);
      ProgressSet(types, m0, canon, id, newId);
      canon := canon[id := newId];
    }

    /** When every candidate under its hash is refused, so is every canonical struct. */
    lemma AllRefused(id: Id, h: nat, cands: seq<Id>)
      requires Settled() && types == input && 0 < id < |types| == |canon| && !Mapped(canon, id)
      requires WellFormed(types[id]) && IsComposite(types[id].info.kind) && h == HashOf(types[id])
      requires forall v :: multiset(cands)[v] == table.Entries()[HashMaps.Entry(h, v)]
      requires forall j :: 0 <= j < |cands| ==> Refused(id, cands[j])
      ensures forall c: Id :: IsStructRoot(types, canon, c) ==> !Equivalent(types, canon, !dontResolveFwds, id, c)
    {
      forall c: Id | IsStructRoot(types, canon, c)
        ensures !Equivalent(types, canon, !dontResolveFwds, id, c)
      {
        if !Refused(id, c) {
          AlikeInShape(id, c);
          hide Equivalent, Forest, Label;
          IsDrawn(id, h, cands, c);
        }
      }
    }

    /** A struct that looks like id is among those filed under its hash. */
    lemma IsDrawn(id: Id, h: nat, cands: seq<Id>, c: Id)
      requires Settled() && |types| == |canon| && id < |types|
      requires WellFormed(types[id]) && IsComposite(types[id].info.kind) && h == HashOf(types[id])
      requires forall v :: multiset(cands)[v] == table.Entries()[HashMaps.Entry(h, v)]
      requires IsStructRoot(types, canon, c) && Label(types[id]) == Label(types[c])
      ensures c in cands
    {
      StructHashByLabel(types[id], types[c]);
      hide HashOf, Label, Forest;
      assert ShouldBeFiled(types, canon, c);
      assert multiset(cands)[c] > 0;
    }

    /** The reference pass is inside type id, which it entered from (g0, m0). */
    ghost predicate Inside(id: Id, g0: seq<BtfType>, m0: Links)
      reads this`types, this`canon, table
    {
      && Settled() && 0 < id < |types| && |types| == |canon| && canon[id] == IN_PROGRESS
      && IsRefKind(types[id].info.kind)
      && Grounded(types, canon) && Stable(types, canon)
      && RefStep(g0, types, m0, canon) && id in Waiting(m0)
    }

    /** What cycles have to do with it: types not entered are as given, and the
        chains of all mapped types end. */
    ghost predicate Chains()
      reads this`types, this`canon
    {
      && |types| == |input| == |canon|
      && (forall x: Id :: x in Waiting(canon) ==> types[x] == input[x])
      && MappedEnd(input, canon)
    }

    /** The references of id from number i on are as given. */
    ghost predicate RefsAsGiven(id: Id, i: nat)
      reads this`types
    {
      && id < |types| == |input| && |Refs(types[id])| == |Refs(input[id])|
      && forall j :: i <= j < |Refs(types[id])| ==> Refs(types[id])[j] == Refs(input[id])[j]
    }

    /** btf_dedup_ref_type. It finds itself in a loop only if there is one: `f` bounds
        the chains of references from id, if they end. */
    method RefType(id: Id, ghost f: nat) returns (r: Outcome, refId: Id)
      requires Settled() && |types| == |canon| && id < |types|
      requires Grounded(types, canon) && Stable(types, canon) && Chains()
      modifies this`types, this`canon, table
      ensures r == Done ==> Settled() && RefStep(old(types), types, old(canon), canon)
      ensures r == Done ==> Grounded(types, canon) && Stable(types, canon) && Forest(canon)
      ensures r == Done ==> Canonical(canon, refId) && Mapped(canon, id) && refId == Root(canon, id)
      ensures r == Done ==> Chains() && SameEntered(old(canon), canon)
      ensures r != Invalid && (RefEnds(input, id, f) && Away(input, old(canon), f) ==> r != Loop)
      decreases Waiting(canon), 0
    {
      hide Ok, LinksOk, Sound, FilingsOk, AllFiled, NoTwins, RefsRooted, Alike, Closed, Refs, Label, RefStep,
           Stable, Root, Forest, Chains, RefEnds, MappedEnd;
      Shape();
      RefStepRefl(types, canon);
      if canon[id] == IN_PROGRESS {
        return Loop, id;
      }
      if canon[id] <= MAX_NR_TYPES {
        refId := Resolve(id);
        GroundedRoot(types, canon, id);
        return Done, refId;
      }
      if !IsRefKind(types[id].info.kind) {
        r, refId := Invalid, id;
        assert false;
      } else {
        hide Grounded;
        r, refId := EnterRef(id, f);
      }
    }

    /** The type is entered, its references are resolved, and it is placed. */
    method EnterRef(id: Id, ghost f: nat) returns (r: Outcome, refId: Id)
      requires Settled() && |types| == |canon| && id < |types| && id in Waiting(canon) && IsRefKind(types[id].info.kind)
      requires Grounded(types, canon) && Stable(types, canon) && Chains()
      modifies this`types, this`canon, table
      ensures r == Done ==> Settled() && RefStep(old(types), types, old(canon), canon)
      ensures r == Done ==> Grounded(types, canon) && Stable(types, canon) && Forest(canon)
      ensures r == Done ==> Canonical(canon, refId) && Mapped(canon, id) && refId == Root(canon, id)
      ensures r == Done ==> Chains() && SameEntered(old(canon), canon)
      ensures r != Invalid && (RefEnds(input, id, f) && Away(input, old(canon), f) ==> r != Loop)
      decreases Waiting(canon), 0, 0
    {
      hide Ok, Settled, Refs, Label, RefStep, Stable, Grounded, Root, Forest, RefEnds, MappedEnd, Away, SameEntered;
      ghost var k := 0;
      ghost var ends := RefEnds(input, id, f) && Away(input, canon, f);
      EnterChains(id);
      if ends {
        k := EnterAway(input, canon, id, f);
      }
      EnterType(id);
      r := ResolveRefs(id, old(types), old(canon), k);
      refId := id;
      if r == Done {
        ghost var canon1 := canon;
        r, refId := PlaceRef(id, old(types), old(canon));
        if r == Done {
          PlacedChains(id, old(canon), canon1);
        }
      }
    }

    lemma EnterChains(id: Id)
      requires Chains() && id in Waiting(canon)
      ensures types[id] == input[id] && RefsAsGiven(id, 0)
    {
    }

    /** The type is mapped: its chains end, and it is no longer being entered. */
    lemma PlacedChains(id: Id, m0: Links, m1: Links)
      requires |types| == |input| == |canon| == |m0| == |m1| && id in Waiting(m0) && canon == m1[id := canon[id]]
      requires Mapped(canon, id)
      requires m1[id] == IN_PROGRESS && SameEntered(m0[id := IN_PROGRESS], m1) && MappedEnd(input, m1)
      requires ChainEnds(input, id)
      requires forall x: Id :: x in Waiting(m1) ==> types[x] == input[x]
      ensures Chains() && SameEntered(m0, canon)
    {
      hide ChainEnds;
      forall x | 0 <= x < |m0|
        ensures m0[x] == IN_PROGRESS <==> canon[x] == IN_PROGRESS
      {
        assert x != id ==> (m0[x] == IN_PROGRESS <==> m1[x] == IN_PROGRESS) by {
          assert x != id ==> m0[id := IN_PROGRESS][x] == m0[x];
        }
      }
    }

    /** d->map[type_id] = BTF_IN_PROGRESS_ID. */
    method EnterType(id: Id)
      requires Settled() && |types| == |canon| && id < |types| && id in Waiting(canon) && Chains()
      requires IsRefKind(types[id].info.kind) && Grounded(types, canon) && Stable(types, canon)
      modifies this`canon
      ensures Inside(id, types, old(canon)) && Waiting(canon) < Waiting(old(canon))
      ensures canon == old(canon)[id := IN_PROGRESS] && Chains()
    {
      EnteringChains(id);
      hide Ok, LinksOk, Sound, FilingsOk, AllFiled, NoTwins, RefsRooted, Alike, Closed, Refs, Label, Root, Forest,
           Grounded, Stable, RefStep, MappedEnd;
      Entered(id);
      MarkState(Snapshot(), id);
      canon := canon[id := IN_PROGRESS];
    }

    lemma Entered(id: Id)
      requires |types| == |canon| && id < |types| && id in Waiting(canon)
      requires IsRefKind(types[id].info.kind) && Grounded(types, canon) && Stable(types, canon)
      ensures var m := canon[id := IN_PROGRESS];
              && RefStep(types, types, canon, m) && Grounded(types, m) && Stable(types, m)
              && Waiting(m) < Waiting(canon)
    {
      hide Grounded, Stable, RefStep;
      RefStepRefl(types, canon);
      RefStepAt(types, types, canon, canon, id, types[id], IN_PROGRESS);
      GroundedKept(types, types, canon, id, IN_PROGRESS);
      StableElsewhere(types, types, canon, canon[id := IN_PROGRESS], id);
      assert types[id := types[id]] == types;
    }

    lemma EnteringChains(id: Id)
      requires Chains() && id < |canon|
      ensures MappedEnd(input, canon[id := IN_PROGRESS])
      ensures forall x: Id :: x in Waiting(canon[id := IN_PROGRESS]) ==> x in Waiting(canon)
    {
    }

    /** The first step of btf_dedup_ref_type: resolve every referenced type. */
    method ResolveRefs(id: Id, ghost g0: seq<BtfType>, ghost m0: Links, ghost f: nat) returns (r: Outcome)
      requires Inside(id, g0, m0) && Chains() && RefsAsGiven(id, 0)
      modifies this`types, this`canon, table
      ensures r == Done ==> Inside(id, g0, m0)
      ensures r == Done ==> forall i :: 0 <= i < |Refs(types[id])| ==> Canonical(canon, Refs(types[id])[i])
      ensures r == Done ==> Chains() && SameEntered(old(canon), canon) && ChainEnds(input, id)
      ensures r != Invalid
      ensures (Away(input, old(canon), f)
               && forall i :: 0 <= i < |Refs(input[id])| ==> RefEnds(input, Refs(input[id])[i], f)) ==>
                r != Loop
      decreases Waiting(canon), 2
    {
      hide Ok, Settled, Refs, Label, RefStep, Stable, Grounded, Waiting, RefEnds, ChainEnds, MappedEnd, Away;
      var n := |Refs(types[id])|;
      for i := 0 to n
        invariant Inside(id, g0, m0) && |Refs(types[id])| == n
        invariant forall j :: 0 <= j < i ==> Canonical(canon, Refs(types[id])[j])
        invariant Waiting(canon) <= Waiting(old(canon))
        invariant Chains() && SameEntered(old(canon), canon) && RefsAsGiven(id, i)
        invariant forall j :: 0 <= j < i ==> ChainEnds(input, Refs(input[id])[j])
      {
        ghost var canon1 := canon;
        AwayStays(input, old(canon), canon, f);
        r := ResolveRef(id, i, g0, m0, f);
        if r != Done {
          return;
        }
        EnteredTrans(old(canon), canon1, canon);
      }
      ChainsJoin(input, id);
      r := Done;
    }

    /** Resolve one referenced type and store its representative. */
    method ResolveRef(id: Id, i: nat, ghost g0: seq<BtfType>, ghost m0: Links, ghost f: nat) returns (r: Outcome)
      requires Inside(id, g0, m0) && i < |Refs(types[id])| && Chains() && RefsAsGiven(id, i)
      modifies this`types, this`canon, table
      ensures r == Done ==> Inside(id, g0, m0) && Waiting(canon) <= Waiting(old(canon))
      ensures r == Done ==> |Refs(types[id])| == |old(Refs(types[id]))| && Canonical(canon, Refs(types[id])[i])
      ensures r == Done ==>
                forall j :: 0 <= j < |Refs(types[id])| && j != i ==> Refs(types[id])[j] == old(Refs(types[id]))[j]
      ensures r == Done ==> forall x: Id :: old(Canonical(canon, x)) ==> Canonical(canon, x)
      ensures r == Done ==>
                && Chains() && SameEntered(old(canon), canon) && RefsAsGiven(id, i + 1)
                && ChainEnds(input, Refs(input[id])[i])
      ensures r != Invalid
      ensures Away(input, old(canon), f) && RefEnds(input, Refs(input[id])[i], f) ==> r != Loop
      decreases Waiting(canon), 1
    {
      hide Ok, LinksOk, Sound, FilingsOk, AllFiled, NoTwins, RefsRooted, Alike, Refs, Label, Stable, Grounded, Root,
           Forest, RefEnds, Away, SameEntered;
      Shape();
      var refId;
      r, refId := RefType(Refs(types[id])[i], f);
      if r == Done {
        RefStepTrans(g0, old(types), types, m0, old(canon), canon);
        RefStepCanonical(old(types), types, old(canon), canon);
        Shape();
        StoreRef(id, i, refId, g0, m0);
      }
    }

    /** t->type = ref_type_id, and its like. */
    method StoreRef(id: Id, i: nat, v: Id, ghost g0: seq<BtfType>, ghost m0: Links)
      requires Inside(id, g0, m0) && i < |Refs(types[id])| && Refs(types[id])[i] < |canon|
      requires Forest(canon) && Canonical(canon, v) && v == Root(canon, Refs(types[id])[i])
      modifies this`types
      ensures Inside(id, g0, m0) && Refs(types[id]) == old(Refs(types[id]))[i := v]
      ensures |types| == |old(types)| && forall x :: 0 <= x < |types| && x != id ==> types[x] == old(types)[x]
    {
      hide Ok, LinksOk, FilingsOk, AllFiled, NoTwins, RefsRooted, Alike, Stable, Grounded, Forest, Closed, Root,
           Sound, RefStep;
      Shape();
      var rs := Refs(types[id])[i := v];
      if Exact() {
        SoundRoot(input, canon, Refs(types[id])[i]);
      }
      RewriteRef(Snapshot(), id, i, v);
      RefStepAt(g0, types, m0, canon, id, SetRefs(types[id], rs), IN_PROGRESS);
      assert canon[id := IN_PROGRESS] == canon;
      ghost var g := types[id := SetRefs(types[id], rs)];
      GroundedKept(types, g, canon, id, IN_PROGRESS);
      StableElsewhere(types, g, canon, canon, id);
      types := types[id := SetRefs(types[id], rs)];
    }

    /** The candidate loop of btf_dedup_ref_type. */
    method FindRef(id: Id, cands: seq<Id>) returns (newId: Id)
      requires Settled() && id < |types| == |canon| && WellFormed(types[id]) && IsRefKind(types[id].info.kind)
      requires !Mapped(canon, id)
      requires forall j :: 0 <= j < |cands| ==> HashMaps.Entry(HashOf(types[id]), cands[j]) in table.Entries()
      ensures newId < |types|
      ensures newId != id ==> types[newId] == types[id] && Canonical(canon, newId) && newId > 0
      ensures newId == id ==> forall j :: 0 <= j < |cands| ==> cands[j] < |types| && types[cands[j]] != types[id]
    {
      hide *;
      for i := 0 to |cands|
        invariant forall j :: 0 <= j < i ==> cands[j] < |types| && types[cands[j]] != types[id]
      {
        DrawnCandidate(HashOf(types[id]), cands[i]);
        EqualFiledIsIdentity(types[id], types[cands[i]]);
        if EqualFiled(types[id], types[cands[i]]) {
          RefIsNoForward(types[id]);
          return cands[i];
        }
      }
      newId := id;
    }

    lemma RefIsNoForward(t: BtfType)
      ensures IsRefKind(t.info.kind) ==> !IsForward(t)
    {
    }

    /** The second step of btf_dedup_ref_type: find a candidate or become one. */
    method PlaceRef(id: Id, ghost g0: seq<BtfType>, ghost m0: Links) returns (r: Outcome, refId: Id)
      requires Inside(id, g0, m0)
      requires forall i :: 0 <= i < |Refs(types[id])| ==> Canonical(canon, Refs(types[id])[i])
      modifies this`canon, table
      ensures r == Done ==> Settled() && RefStep(g0, types, m0, canon)
      ensures r == Done ==> Grounded(types, canon) && Stable(types, canon) && Forest(canon)
      ensures r == Done ==> Canonical(canon, refId) && Mapped(canon, id) && refId == Root(canon, id)
      ensures r != Invalid && r != Loop
      ensures r == Done ==> |canon| == |old(canon)| && canon == old(canon)[id := canon[id]]
    {
      hide Ok, LinksOk, Sound, FilingsOk, AllFiled, NoTwins, RefsRooted, Alike, Refs, Stable, Grounded, Root,
           Forest, RefStep, HashOf, LinkOk;
      Shape();
      var h := HashOf(types[id]);
      var cands := table.KeyEntries(h);
      assert forall j :: 0 <= j < |cands| ==> multiset(cands)[cands[j]] > 0;
      refId := FindRef(id, cands);
      RefPlaced(id, refId, g0, m0);
      if refId != id {
        LinkTo(id, refId);
        r := Done;
      } else {
        AllDrawn(id, h, cands);
        r := FileSelf(id, h);
      }
      if r == Done {
        Shape();
        RootUnfold(canon, id);
        RootUnfold(canon, refId);
      }
    }

    /** What is left to show once the representative of id is known. */
    lemma RefPlaced(id: Id, newId: Id, g0: seq<BtfType>, m0: Links)
      requires Inside(id, g0, m0) && |input| == |types| && newId < |types| <= MAX_NR_TYPES + 1
      requires forall i :: 0 <= i < |Refs(types[id])| ==> Canonical(canon, Refs(types[id])[i])
      requires newId != id ==> types[newId] == types[id] && Canonical(canon, newId) && newId > 0
      ensures RefStep(g0, types, m0, canon[id := newId])
      ensures Grounded(types, canon[id := newId]) && Stable(types, canon[id := newId])
      ensures newId != id ==> Forest(canon) && Root(canon, newId) != id && LinkOk(input[id], input[newId])
      ensures newId != id && Exact() ==> Alike(input, id, input, newId)
    {
      hide Ok, Grounded, RefStep, Stable, Forest, LinkOk, Alike, Root;
      RefStepAt(g0, types, m0, canon, id, types[id], newId);
      assert types[id := types[id]] == types;
      GroundedKept(types, types, canon, id, newId);
      StableMapped(types, canon, id, newId);
      SamePlace(id, newId);
    }

    /** Identical records may be linked: they were alike before references were rewritten. */
    lemma SamePlace(id: Id, newId: Id)
      requires Settled() && |input| == |types| == |canon| && id < |types| && newId < |types|
      requires IsRefKind(types[id].info.kind)
      requires newId != id ==> types[newId] == types[id] && Canonical(canon, newId) && newId > 0
      ensures newId != id ==> Forest(canon) && Root(canon, newId) != id && LinkOk(input[id], input[newId])
      ensures newId != id && Exact() ==> Alike(input, id, input, newId)
    {
      hide LinksOk, FilingsOk, AllFiled, NoTwins, RefsRooted, Sound, Closed;
      if newId != id {
        RootUnfold(canon, newId);
        assert Label(input[id]) == Label(types[id]) && Label(input[newId]) == Label(types[newId]);
        if Exact() {
          TwinsAlike(types, id, newId);
          AlikeTransfer(input, types, id, newId);
        }
      }
    }

    /** Primitive kinds, VAR, DATASEC and void are mapped, reference kinds are not. */
    ghost predicate PrimsDone()
      reads this`types, this`canon
    {
      && |types| == |canon|
      && (forall x :: 0 < x < |types| ==> types[x].info.kind != Unkn)
      && (forall x :: 0 <= x < |types| && !IsRefKind(types[x].info.kind) && !IsComposite(types[x].info.kind) ==>
            Mapped(canon, x))
      && (forall x :: 0 <= x < |types| && IsRefKind(types[x].info.kind) ==> canon[x] == UNPROCESSED)
    }

    /** Nothing but kept types represents itself yet. */
    ghost predicate NoStructs()
      reads this`types, this`canon
    {
      |types| == |canon| && forall x: Id :: Canonical(canon, x) ==> !IsComposite(types[x].info.kind)
    }

    /** btf_dedup_prim_types. */
    method PrimTypes() returns (r: Outcome)
      requires Valid() && types == input && canon == StartMap(types)
      modifies this`canon, table
      ensures r == Done ==> Valid() && PrimsDone() && NoStructs() && Forest(canon)
      ensures r == Done && !dontResolveFwds ==> EnumsResolved(types, canon, |types|)
      ensures r != Loop && (r == Invalid ==> !KnownKinds(types))
    {
      hide Forest, EnumsResolved, KnownKinds, PrimsUpTo, PrimsDone, NoStructs, StartMap, Ok, LinksOk, Sound,
           FilingsOk, AllFiled, NoTwins, Listed, Closed, FreshFrom, PrimStep;
      Shape();
      StartFresh(types);
      NoEnumsYet(types, canon);
      for i := 1 to |types|
        invariant Valid() && |types| == |canon| && FreshFrom(types, canon, i)
        invariant PrimsUpTo(types, canon, i) && Forest(canon)
        invariant !dontResolveFwds ==> EnumsResolved(types, canon, i)
      {
        ghost var before := canon;
        r := PrimType(i);
        if r != Done {
          UnknownKind(types, i);
          return;
        }
        PrimsUpToNext(types, before, canon, i);
      }
      AllPrimsDone();
      r := Done;
    }

    lemma AllPrimsDone()
      requires |types| == |canon| && PrimsUpTo(types, canon, |types|)
      ensures PrimsDone() && NoStructs()
    {
      PrimsUpToAll(types, canon);
    }

    /** btf_dedup_struct_types: `ms` are the maps before and after each type. */
    method StructTypes() returns (r: Outcome, ghost ms: seq<Links>)
      requires Valid() && types == input && PrimsDone() && NoStructs()
      modifies this`canon, this`hypot, this`hypotList, table
      ensures r == Done ==> Valid() && |types| == |canon| && Grounded(types, canon)
      ensures r == Done ==> forall x :: 0 <= x < |types| && IsRefKind(types[x].info.kind) ==> canon[x] == UNPROCESSED
      ensures r == Done ==> StructRun(types, !dontResolveFwds, ms, |types|) && ms[0] == old(canon)
      ensures r == Done ==> ms[|types| - 1] == canon && SameEnums(types, old(canon), canon)
      ensures r == Done && MadeOfUnits(types) ==> ClearDistinct(types, canon, !dontResolveFwds)
      ensures r != Loop && (Orderly() ==> r != Invalid)
    {
      hide *;
      ValidParts();
      Shape();
      StructsBegin();
      ms := [canon];
      for i := 1 to |types|
        invariant Valid() && |types| == |canon| && StructsUpTo(types, canon, i)
        invariant MadeOfUnits(types) ==> ClearDistinct(types, canon, !dontResolveFwds)
        invariant StructRun(types, !dontResolveFwds, ms, i) && |ms| == i && ms[0] == old(canon) && ms[i - 1] == canon
        invariant SameEnums(types, old(canon), canon)
      {
        ghost var before := canon;
        ghost var cu := UnitOf(types, i);
        ValidParts();
        Shape();
        r := StructType(i);
        if r != Done {
          return;
        }
        ValidParts();
        Shape();
        StructRunNext(types, !dontResolveFwds, ms, i, canon);
        ms := ms + [canon];
        StructsUpToNext(types, before, canon, i);
        EnumsProgress(types, old(canon), before, canon, i);
        if MadeOfUnits(types) {
          StillDistinct(before, i, cu);
        }
      }
      ValidParts();
      Shape();
      StructsUpToAll(types, canon);
      r := Done;
    }

    lemma StructsBegin()
      requires Settled() && types == input && PrimsDone() && NoStructs()
      ensures |types| == |canon| > 0 && StructsUpTo(types, canon, 1) && SameEnums(types, canon, canon)
      ensures ClearDistinct(types, canon, !dontResolveFwds) && StructRun(types, !dontResolveFwds, [canon], 1)
    {
      hide Ok, ClearDistinct, StructsUpTo, SameEnums;
      Shape();
      NoStructsDistinct(types, canon);
      StructsStart(types, canon);
      SameEnumsRefl(types, canon);
    }

    /** A new struct representative differs in meaning from all earlier ones. */
    lemma StillDistinct(before: Links, id: Id, cu: set<Id>)
      requires |before| == |types| == |canon| <= MAX_NR_TYPES + 1 && Closed(types)
      requires ClearDistinct(types, before, !dontResolveFwds)
      requires Progress(types, before, canon, id) && Forest(before) && (dontResolveFwds ==> Sound(types, before))
      requires id < |types| && (IsComposite(types[id].info.kind) ==> id in cu && Unit(types, cu))
      requires StructStep(types, before, canon, !dontResolveFwds, id)
      ensures ClearDistinct(types, canon, !dontResolveFwds)
    {
      forall x: Id, y: Id |
        Canonical(canon, x) && Canonical(canon, y) && x != y && IsComposite(types[x].info.kind) && Clear(x)
        ensures !Alike(types, x, types, y)
      {
        if Alike(types, x, types, y) {
          ClearAlike(x, y);
          hide Alike, Unfold, PlainFrom, Closed, Unit, Label, Refs, Equivalent, Forest, Sound;
          if x == id && !Canonical(before, id) {
            NewIsApart(before, id, y, cu);
          } else if y == id && !Canonical(before, id) {
            NewIsApart(before, id, x, cu);
          }
        }
      }
    }

    lemma NewIsApart(before: Links, id: Id, c: Id, cu: set<Id>)
      requires |before| == |types| == |canon| <= MAX_NR_TYPES + 1 && Closed(types)
      requires Forest(before) && (dontResolveFwds ==> Sound(types, before))
      requires id in cu && Unit(types, cu) && id < |types| && IsComposite(types[id].info.kind) && Clear(id)
      requires StructStep(types, before, canon, !dontResolveFwds, id) && Canonical(canon, id) && !Canonical(before, id)
      requires IsStructRoot(types, before, c)
      ensures !Alike(types, id, types, c)
    {
      hide Alike, PlainFrom, Closed, Unit, Equivalent, Forest, Sound, StructMerged;
      if Alike(types, id, types, c) {
        UnitEquivalent(types, before, !dontResolveFwds, cu, id, c);
      }
    }

    lemma ClearAlike(x: Id, y: Id)
      requires x < |types| && y < |types| && Closed(types) && Alike(types, x, types, y) && Clear(x)
      ensures Clear(y) && Alike(types, y, types, x) && types[y].info.kind == types[x].info.kind
    {
      AlikeParts(types, x, types, y);
      AlikeSym(types, x, types, y);
      forall k: nat
        ensures PlainFrom(types, x) ==> !ForwardWithin(types, y, k)
      {
        if ForwardWithin(types, y, k) {
          PlainAlike(types, x, y, k);
        }
      }
    }

    /** The reference pass, which began from (g0, m0), has come to type i. */
    ghost predicate RefPass(i: nat, g0: seq<BtfType>, m0: Links)
      reads this`types, this`canon, table
    {
      && Settled() && |types| == |canon| == |input| == |g0| && i <= |types| && Forest(canon)
      && Grounded(types, canon) && Stable(types, canon) && RefStep(g0, types, m0, canon)
      && (forall x :: 0 <= x < i ==> Mapped(canon, x)) && (forall x :: 0 <= x < |canon| ==> canon[x] != IN_PROGRESS)
      && Chains()
    }

    /** One type of the reference pass. */
    method TopRef(id: Id, ghost g0: seq<BtfType>, ghost m0: Links) returns (r: Outcome)
      requires RefPass(id, g0, m0) && id < |types|
      modifies this`types, this`canon, table
      ensures r == Done ==> RefPass(id + 1, g0, m0) && |types| == |old(types)|
      ensures r != Invalid && (r == Loop ==> !NoRefCycles(input))
    {
      hide Ok, Closed, Grounded, Stable, RefStep, Forest, RefEnds, ChainEnds, MappedEnd, SameEntered, NoRefCycles,
           Settled, Chains;
      ghost var f: nat := 0;
      if NoRefCycles(input) {
        f := ChainBound(input, id);
      }
      NoneEntered(input, canon, f);
      var refId;
      r, refId := RefType(id, f);
      if r == Done {
        RefStepTrans(g0, old(types), types, m0, old(canon), canon);
        RefStepMapped(old(types), types, old(canon), canon);
        StillNoneEntered(old(canon), canon);
      }
    }

    lemma RefPassBegins()
      requires Settled() && |types| == |canon| > 0 && Grounded(types, canon) && Mapped(canon, 0)
      requires types == input
      requires forall x :: 0 <= x < |types| && IsRefKind(types[x].info.kind) ==> canon[x] == UNPROCESSED
      ensures RefPass(1, types, canon)
    {
      hide Ok, Exact;
      Shape();
      hide Settled, LinksOk, Sound;
      StartChains(types, canon);
      NoRefsStable(types, canon);
      RefStepRefl(types, canon);
    }

    lemma RefPassEnds(g0: seq<BtfType>, m0: Links)
      requires RefPass(|types|, g0, m0)
      ensures Settled() && |types| == |canon| == |g0| && Forest(canon) && AllMapped(canon)
      ensures Grounded(types, canon) && Stable(types, canon) && RefStep(g0, types, m0, canon) && NoRefCycles(input)
    {
      AllChainsEnd(input, canon);
    }

    /** btf_dedup_ref_types. It ends in a loop exactly if the references do, memory permitting. */
    method RefTypes() returns (r: Outcome)
      requires Settled() && |types| == |canon| && Grounded(types, canon)
      requires types == input
      requires forall x :: 0 <= x < |types| && IsRefKind(types[x].info.kind) ==> canon[x] == UNPROCESSED
      modifies this`types, this`canon, table
      ensures r != Invalid && (r == Done ==> NoRefCycles(input)) && (r == Loop ==> !NoRefCycles(input))
      ensures r == Done ==> Settled() && |types| == |canon| == |old(types)| && Forest(canon) && AllMapped(canon)
      ensures r == Done ==> Grounded(types, canon) && Stable(types, canon)
      ensures r == Done ==> RefStep(old(types), types, old(canon), canon)
    {
      Shape();
      RefPassBegins();
      hide *;
      for i := 1 to |types|
        invariant |types| == |old(types)| && RefPass(i, old(types), old(canon))
      {
        r := TopRef(i, old(types), old(canon));
        if r != Done {
          return;
        }
      }
      RefPassEnds(old(types), old(canon));
      r := Done;
    }

    /** btf_dedup_compact_types, on the index of types: representatives move
        down over what has already been read. */
    method CompactTypes()
      requires |types| == |canon| == |hypot| && 0 < |types| && canon[0] == 0
      modifies this`types, this`hypot
      ensures |hypot| == |canon| && Numbered(canon, hypot, |canon|)
      ensures |types| == |Survivors(canon, |canon|)|
      ensures Compacted(old(types), canon, types, |canon|)
    {
      var n := |types|;
      hypot := seq(n, i => if i == 0 then 0 else UNPROCESSED);
      var nextTypeId := 1;
      assert Survivors(canon, 1) == [0];
      hide Survivors;
      for i := 1 to n
        invariant |types| == |hypot| == n && nextTypeId == |Survivors(canon, i)| <= i
        invariant Numbered(canon, hypot, i) && Compacted(old(types), canon, types, i)
        invariant forall x :: i <= x < n ==> types[x] == old(types)[x]
      {
        CompactStep(old(types), canon, hypot, types, i);
        if canon[i] == i {
          types := types[nextTypeId := types[i]];
          hypot := hypot[i := nextTypeId];
          nextTypeId := nextTypeId + 1;
        }
      }
      types := types[..nextTypeId];
    }

    /** btf_dedup_remap_type_id. */
    method RemapTypeId(id: Id) returns (r: Outcome, newId: nat)
      requires Forest(canon) && |hypot| == |canon| && id < |canon|
      ensures r == Done <==> NewId(canon, hypot, id) <= MAX_NR_TYPES
      ensures r == Done ==> newId == NewId(canon, hypot, id)
    {
      var resolved := Resolve(id);
      newId := hypot[resolved];
      r := if newId > MAX_NR_TYPES then Invalid else Done;
    }

    /** btf_dedup_remap_type: rewrite the references of one descriptor. */
    method RemapType(id: Id) returns (r: Outcome)
      requires Forest(canon) && |hypot| == |canon| && id < |types| && RefsBelow(types[id], |canon|)
      requires forall x: Id :: x < |canon| ==> NewId(canon, hypot, x) <= MAX_NR_TYPES
      requires id == 0 || types[id].info.kind != Unkn
      modifies this`types
      ensures r == Done && |types| == |old(types)|
      ensures types == old(types)[id := Remapped(canon, hypot, old(types[id]))]
    {
      hide Forest, Refs, SetRefs;
      ghost var t := types[id];
      SetOwnRefs(t);
      var n := |Refs(types[id])|;
      for i := 0 to n
        invariant |types| == |old(types)| && forall x :: 0 <= x < |types| && x != id ==> types[x] == old(types[x])
        invariant |Refs(types[id])| == n && types[id] == SetRefs(t, Refs(types[id]))
        invariant forall j :: 0 <= j < i ==> Refs(types[id])[j] == NewId(canon, hypot, Refs(t)[j])
        invariant forall j :: i <= j < n ==> Refs(types[id])[j] == Refs(t)[j]
      {
        var newId;
        r, newId := RemapTypeId(Refs(types[id])[i]);
        if r != Done {
          return;
        }
        SetRefsTwice(t, Refs(types[id]), Refs(types[id])[i := newId]);
        types := types[id := SetRefs(types[id], Refs(types[id])[i := newId])];
      }
      RemappedIs(canon, hypot, t, Refs(types[id]));
      r := Done;
    }

    /** btf_dedup_remap_types: never fails on a finished map. */
    method RemapTypes() returns (r: Outcome)
      requires Forest(canon) && |hypot| == |canon|
      requires forall x :: 0 <= x < |types| ==> RefsBelow(types[x], |canon|)
      requires forall x: Id :: x < |canon| ==> NewId(canon, hypot, x) <= MAX_NR_TYPES
      requires forall x :: 0 < x < |types| ==> types[x].info.kind != Unkn
      requires |types| > 0 && types[0] == VOID
      modifies this`types
      ensures r == Done && RemappedTo(canon, hypot, old(types), types, |old(types)|)
      ensures forall x :: 0 <= x < |old(types)| ==> IdsRenumbered(NewIds(canon, hypot), old(types)[x], types[x])
    {
      hide Forest, Remapped, IdsRenumbered;
      RemapVoid(canon, hypot);
      for i := 1 to |types|
        invariant RemappedTo(canon, hypot, old(types), types, i)
      {
        r := RemapType(i);
      }
      AllRemappedFields(canon, hypot, old(types), types);
      r := Done;
    }

    /** Passes 2 to 6 of btf__dedup. */
    method Run() returns (r: Outcome)
      requires Valid() && types == input && canon == StartMap(types)
      modifies this, table
      ensures r == Invalid ==> !KnownKinds(input) || !OrdinaryRefs(input)
      ensures r == Loop ==> !NoRefCycles(input)
      ensures r == Done ==> KnownKinds(input) && NoRefCycles(input)
      ensures r == Done ==> Forest(canon) && |hypot| == |canon| && Onto(canon, hypot, |types|)
      ensures r == Done ==> |canon| == |hypot| == |input| && AllMapped(canon) && LinksOk(input, canon) && Closed(types)
      ensures r == Done ==> forall x: Id :: x < |input| ==> NewId(canon, hypot, x) < |types|
      ensures r == Done ==> FieldsRenumbered() && StandsIn() && EnumsDefined() && NoCopies(types)
      ensures r == Done && Exact() ==>
                forall x: Id :: x < |input| ==> Alike(input, x, types, NewId(canon, hypot, x))
      ensures r == Done && Exact() && MadeOfUnits(input) && OrdinaryRefs(input) ==> Minimal(types)
      ensures r == Done && MadeOfUnits(input) ==> ClearDistinct(input, canon, !dontResolveFwds)
    {
      hide Settled, HypotOk, LinksOk, AllMapped, Closed, NewId, Forest, Minimal, MadeOfUnits, StructsDistinct, Alike,
           NoRefCycles, KnownKinds, OrdinaryRefs, Grounded, NoStructs, PrimsDone, Onto, StartMap, FieldsRenumbered,
           StandsIn, ClearDistinct, EnumsDefined, EnumsResolved, SameEnums, NoCopies;
      r := PrimTypes();
      if r == Done {
        KindsKnown();
        Shape();
        ghost var m1 := canon;
        ghost var ms;
        r, ms := StructTypes();
        if r == Done {
          Shape();
          if !dontResolveFwds {
            EnumsStay(types, m1, canon, |types|);
          }
          r := RunRest();
        }
      }
    }

    /** Passes 4 to 6. */
    method RunRest() returns (r: Outcome)
      requires Valid() && types == input && |types| == |canon| && Grounded(types, canon)
      requires forall x :: 0 <= x < |types| && IsRefKind(types[x].info.kind) ==> canon[x] == UNPROCESSED
      requires KnownKinds(types)
      requires MadeOfUnits(types) ==> ClearDistinct(types, canon, !dontResolveFwds)
      requires Forest(canon) && (!dontResolveFwds ==> EnumsResolved(types, canon, |types|))
      modifies this`types, this`canon, this`hypot, table
      ensures r != Invalid && (r == Loop ==> !NoRefCycles(input)) && (r == Done ==> NoRefCycles(input))
      ensures r == Done ==> Forest(canon) && |hypot| == |canon| && Onto(canon, hypot, |types|)
      ensures r == Done ==> |canon| == |hypot| == |input| && AllMapped(canon) && LinksOk(input, canon) && Closed(types)
      ensures r == Done ==> forall x: Id :: x < |input| ==> NewId(canon, hypot, x) < |types|
      ensures r == Done ==> FieldsRenumbered() && StandsIn() && EnumsDefined() && NoCopies(types)
      ensures r == Done && Exact() ==>
                forall x: Id :: x < |input| ==> Alike(input, x, types, NewId(canon, hypot, x))
      ensures r == Done && Exact() && MadeOfUnits(input) && OrdinaryRefs(input) ==> Minimal(types)
      ensures r == Done && MadeOfUnits(input) ==> ClearDistinct(input, canon, !dontResolveFwds)
    {
      hide Ok, LinksOk, Sound, Listed, Closed, Forest, Grounded, Stable, RefStep, StructsDistinct, IsResult,
           Numbered, Minimal, OrdinaryRefs, Alike, NoRefCycles, Onto, FieldsRenumbered, StandsIn,
           ClearDistinct, EnumsDefined, EnumsResolved, SameEnums, NoCopies, RecordsDistinct;
      Shape();
      ghost var m1 := canon;
      r := RefTypes();
      if r != Done {
        return;
      }
      ghost var s := Snapshot();
      Shape();
      SameKinds(s);
      EnumsAfterRefs(input, types, m1, canon);
      if MadeOfUnits(input) {
        ClearStillDistinct(input, types, m1, canon, !dontResolveFwds);
      }
      r := Renumber(s);
      DedupClosed(s, hypot, types);
      ResultByFields(s);
      if !dontResolveFwds {
        EnumsStay(input, m1, canon, |input|);
      }
      AllStandIn();
      ResultOnto(s.types, canon, hypot, types);
      FiledDistinct(s);
      ResultNoCopies(s.types, canon, hypot, types);
      if Exact() {
        forall x: Id | x < |input|
          ensures Alike(input, x, types, NewId(canon, hypot, x))
        {
          DedupMeans(s, hypot, types, x);
        }
        if MadeOfUnits(input) && OrdinaryRefs(input) {
          AllDistinct(input, m1, !dontResolveFwds);
          DedupMinimal(s, m1, hypot, types);
        }
      }
    }

    /** Every type has a representative in the result that it may be mapped to. */
    ghost predicate StandsIn()
      reads this`canon, this`hypot, this`types
    {
      && |hypot| == |canon| == |input| && Forest(canon)
      && forall x: Id :: x < |input| ==>
           NewId(canon, hypot, x) < |types| && StandIn(input[x], types[NewId(canon, hypot, x)])
    }

    /** With FWD resolution every forward enum is defined that has a definition. */
    ghost predicate EnumsDefined()
      reads this`canon, this`hypot, this`types
    {
      && |hypot| == |canon| == |input| && Forest(canon)
      && (!dontResolveFwds ==>
            forall f: Id, e: Id :: f < |input| && e < |input| && StandsFor(input[f], input[e]) && IsFull(input[e]) ==>
              NewId(canon, hypot, f) < |types| && IsFull(types[NewId(canon, hypot, f)]))
    }

    lemma AllStandIn()
      requires FieldsRenumbered() && Forest(canon) && AllMapped(canon) && LinksOk(input, canon) && Closed(input)
      requires |canon| <= MAX_NR_TYPES + 1 && (!dontResolveFwds ==> EnumsResolved(input, canon, |input|))
      ensures StandsIn() && EnumsDefined()
    {
      hide FieldsRenumbered, Closed, LinksOk, AllMapped, StandIn;
      SameLengths();
      forall x: Id | x < |input|
        ensures NewId(canon, hypot, x) < |types| && StandIn(input[x], types[NewId(canon, hypot, x)])
        ensures types[NewId(canon, hypot, x)].info == input[Root(canon, x)].info
      {
        RootCanonical(canon, x);
        StandInRoot(input, canon, x);
        hide Forest, EnumsResolved, Root;
        RecordOf(Root(canon, x));
        StandInRenumbered(NewIds(canon, hypot), input[x], input[Root(canon, x)], types[NewId(canon, hypot, x)]);
      }
    }

    /** What a finished run says of the new ids. */
    lemma Results()
      requires FieldsRenumbered() && StandsIn() && EnumsDefined()
      ensures |hypot| == |canon| == |input| && Forest(canon)
      ensures forall j :: 0 <= j < |types| ==> IdsBelow(types[j], |types|)
      ensures forall x: Id :: Canonical(canon, x) ==>
                hypot[x] < |types| && IdsRenumbered(NewIds(canon, hypot), input[x], types[hypot[x]])
      ensures forall x: Id :: x < |input| ==>
                && NewIds(canon, hypot)(x) == NewId(canon, hypot, x) < |types|
                && StandIn(input[x], types[NewIds(canon, hypot)(x)])
      ensures !dontResolveFwds ==> Defined(input, types, NewIds(canon, hypot))
      ensures Exact() <==> dontResolveFwds || NoForwards(input)
    {
      hide NoForwards, StandIn, StandsFor, Forest, IsFull, IdsRenumbered, IdsBelow;
    }

    lemma SameLengths()
      requires FieldsRenumbered()
      ensures |hypot| == |canon| == |input|
    {
    }

    lemma RecordOf(x: Id)
      requires FieldsRenumbered() && Canonical(canon, x) && Closed(input)
      ensures x < |hypot| == |input| && hypot[x] < |types| && WellFormed(input[x])
      ensures IdsRenumbered(NewIds(canon, hypot), input[x], types[hypot[x]])
      ensures types[hypot[x]].info == input[x].info
    {
    }

    /** Field by field, each representative's record is the given one with all ids
        in it renumbered, and these are ids of the result. */
    ghost predicate FieldsRenumbered()
      reads this`types, this`canon, this`hypot
    {
      && |hypot| == |canon| == |input|
      && (forall j :: 0 <= j < |types| ==> IdsBelow(types[j], |types|))
      && (forall x: Id :: Canonical(canon, x) ==>
            hypot[x] < |types| && IdsRenumbered(NewIds(canon, hypot), input[x], types[hypot[x]]))
    }

    /** The result field by field. */
    lemma ResultByFields(s: State)
      requires Ok(s) && AllMapped(s.canon) && s.canon == canon && Closed(types) && s.input == input
      requires IsResult(s.types, canon, hypot, types)
      ensures FieldsRenumbered()
    {
      hide Ok, IsResult, IdsRenumbered, IdsBelow, AllMapped;
      forall j: nat | j < |types|
        ensures IdsBelow(types[j], |types|)
      {
        RefsAreIds(types[j], |types|);
      }
      SameSizes(s, hypot);
      forall x: Id | Canonical(canon, x)
        ensures hypot[x] < |types| && IdsRenumbered(NewIds(canon, hypot), input[x], types[hypot[x]])
      {
        ResultFields(s, hypot, types, x);
      }
    }

    lemma SameSizes(s: State, ids: Links)
      requires Ok(s) && IsResult(s.types, s.canon, ids, types)
      ensures |ids| == |s.canon| == |s.input|
    {
    }

    /** Passes 5 and 6. */
    method Renumber(ghost s: State) returns (r: Outcome)
      requires s == Snapshot() && Ok(s) && AllMapped(canon) && |types| == |canon| == |hypot|
      requires forall z :: 0 < z < |types| ==> types[z].info.kind != Unkn
      modifies this`types, this`hypot
      ensures r == Done && |hypot| == |canon| == |s.types| && IsResult(s.types, canon, hypot, types)
    {
      hide LinksOk, Sound, FilingsOk, AllFiled, NoTwins, RefsRooted, Numbered, Compacted, RemappedTo, IsResult,
           SameMeaning;
      CompactTypes();
      CompactedReady(s.types, canon, types);
      forall x: Id | x < |canon|
        ensures NewId(canon, hypot, x) <= MAX_NR_TYPES
      {
        NumbersInRange(canon, hypot, x);
      }
      ghost var h := types;
      r := RemapTypes();
      CompactedRemapped(s.types, canon, hypot, h, types);
    }

    lemma KindsKnown()
      requires PrimsDone()
      ensures KnownKinds(types) && |types| == |canon|
    {
    }
  }

  lemma SameKinds(s: State)
    requires Ok(s)
    ensures forall z :: 0 <= z < |s.types| ==> s.types[z].info == s.input[z].info
  {
    forall z | 0 <= z < |s.types|
      ensures s.types[z].info == s.input[z].info
    {
      assert Label(s.input[z]) == Label(s.types[z]);
    }
  }

  /** The canonical map before any pass. */
  function StartMap(types: seq<BtfType>): (m: Links)
    ensures |m| == |types|
  {
    seq(|types|, i requires 0 <= i < |types| =>
      if i == 0 || types[i].info.kind == Var || types[i].info.kind == DataSec then i else UNPROCESSED)
  }

  lemma StartFresh(types: seq<BtfType>)
    requires Closed(types) && |types| <= MAX_NR_TYPES + 1
    ensures FreshFrom(types, StartMap(types), 1) && PrimsUpTo(types, StartMap(types), 1)
  {
  }

  lemma StartOk(types: seq<BtfType>, resolveFwds: bool)
    requires Closed(types) && |types| <= MAX_NR_TYPES + 1
    ensures Ok(State(types, types, StartMap(types), multiset{}, resolveFwds))
  {
    var m := StartMap(types);
    forall x: Id | x < |m|
      ensures IsRoot(m, x) && SoundAt(types, m, x)
    {
    }
    forall x: Id | x < |m|
      ensures Stops(m, x)
    {
      assert Settles(m, x, 0);
    }
    NotRewritten(types, m);
  }

  ghost predicate RecordedIn(h: Links, list: seq<Id>) {
    (forall i :: 0 <= i < |list| ==> list[i] < |h|) && forall c: Id :: Recorded(h, c) ==> c in list
  }

  lemma ClearOne(h: Links, c: Id, rest: seq<Id>)
    requires c < |h| && RecordedIn(h, [c] + rest)
    ensures RecordedIn(h[c := UNPROCESSED], rest)
  {
    assert forall i :: 0 <= i < |rest| ==> rest[i] == ([c] + rest)[i + 1];
    forall d: Id | Recorded(h[c := UNPROCESSED], d)
      ensures d in rest
    {
      assert Recorded(h, d);
    }
  }

  lemma ListedAdd(h: Links, list: seq<Id>, from: Id, to: Id)
    requires Listed(h, list) && from < |h| && to < |h| <= MAX_NR_TYPES + 1 && !Recorded(h, from)
    ensures Listed(h[from := to], list + [from])
  {
  }
}
