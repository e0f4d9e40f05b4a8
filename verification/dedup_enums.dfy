/** What the primitive pass does about forward enums (btf_dedup_prim_type, btf.c). */
module DedupEnums {
  import opened BtfTypes
  import opened BtfCompare
  import opened CanonMap
  import opened DedupState
  import opened DedupEquiv
  import opened DedupMerge
  import opened DedupResult

  predicate IsFull(t: BtfType) {
    t.info.kind == Enum && t.info.vlen > 0
  }

  /** The candidate c may stand for x: it is the same record, or defines the forward enum x. */
  predicate TakenFor(g: seq<BtfType>, resolve: bool, x: Id, c: Id)
    requires x < |g| && c < |g|
  {
    g[c] == g[x] || (resolve && StandsFor(g[x], g[c]))
  }

  /** With FWD resolution the full enum id has taken over the forward enums seen. */
  ghost predicate TakesOver(g: seq<BtfType>, resolve: bool, m0: Links, m: Links, id: Id, seen: seq<Id>) {
    && |m0| == |m| == |g| && id < |g|
    && forall x :: 0 <= x < |g| ==>
                     m[x] == if resolve && IsFull(g[id]) && StandsFor(g[x], g[id]) && x in seen then id else m0[x]
  }

  /** The search of the candidates ends with the first that may stand for id, or with id. */
  ghost predicate Searched(g: seq<BtfType>, resolve: bool, m0: Links, m: Links, id: Id, cands: seq<Id>, newId: Id) {
    exists n: nat :: SearchedTo(g, resolve, m0, m, id, cands, newId, n)
  }

  ghost predicate SearchedTo(g: seq<BtfType>, resolve: bool, m0: Links, m: Links, id: Id, cands: seq<Id>, newId: Id,
                             n: nat)
  {
    && n <= |cands| && TakesOver(g, resolve, m0, m, id, cands[..n])
    && (forall j :: 0 <= j < n ==> cands[j] < |g| && !TakenFor(g, resolve, id, cands[j]))
    && (if n < |cands| then newId == cands[n] && newId < id && TakenFor(g, resolve, id, newId) else newId == id)
  }

  lemma NothingTaken(g: seq<BtfType>, resolve: bool, m: Links, id: Id)
    requires |m| == |g| && id < |g|
    ensures TakesOver(g, resolve, m, m, id, [])
  {
  }

  lemma TakenNext(g: seq<BtfType>, resolve: bool, m0: Links, m: Links, m': Links, id: Id, cands: seq<Id>, i: nat)
    requires i < |cands| && TakesOver(g, resolve, m0, m, id, cands[..i]) && cands[i] < |g|
    requires m' == if resolve && IsFull(g[id]) && StandsFor(g[cands[i]], g[id]) then m[cands[i] := id] else m
    ensures TakesOver(g, resolve, m0, m', id, cands[..i + 1])
  {
    assert cands[..i + 1] == cands[..i] + [cands[i]];
  }

  /** Where a full enum of its name, size and signedness is among the types below n,
      a forward enum has been resolved to one. */
  ghost predicate EnumsResolved(g: seq<BtfType>, m: Links, n: nat)
    requires Forest(m) && |g| == |m|
  {
    forall f, e :: 0 <= f < n && 0 <= e < n && f < |g| && e < |g| && IsFull(g[e]) && StandsFor(g[f], g[e]) ==>
                     IsFull(g[Root(m, f)])
  }

  lemma NoEnumsYet(g: seq<BtfType>, m: Links)
    requires Forest(m) && |g| == |m| > 0 && g[0].info.kind != Enum
    ensures EnumsResolved(g, m, 1)
  {
  }

  /** Forward enums that have a definition among the types are defined in the result. */
  ghost predicate Defined(g: seq<BtfType>, out: seq<BtfType>, newIds: Id -> Id) {
    forall f: Id, e: Id :: f < |g| && e < |g| && IsFull(g[e]) && StandsFor(g[f], g[e]) ==>
                             newIds(f) < |out| && IsFull(out[newIds(f)])
  }

  /** An enum is mapped to itself, or as a forward enum to one it stands for. */
  lemma EnumRoot(g: seq<BtfType>, m: Links, x: Id)
    requires |g| == |m| && Forest(m) && LinksOk(g, m) && x < |m| && g[x].info.kind == Enum
    ensures g[Root(m, x)] == g[x] || StandsFor(g[x], g[Root(m, x)])
  {
    StandInRoot(g, m, x);
  }

  /** The walk from y keeps its full end, or finds id where its forward end was taken over. */
  lemma {:induction false} FullStays(g: seq<BtfType>, m0: Links, m: Links, id: Id, y: Id, k: nat)
    requires |g| == |m0| == |m| <= MAX_NR_TYPES + 1 && Forest(m0) && Forest(m) && LinksOk(g, m) && id < |g|
    requires y < |g| && Settles(m0, y, k) && IsRoot(m0, id)
    requires forall x :: 0 <= x < |g| && x != id ==> m[x] == m0[x] || (m[x] == id && IsFull(g[id]))
    requires var r := RootWithin(m0, y, k); IsFull(g[r]) || (r != id && m[r] == id && IsFull(g[id]))
    ensures IsFull(g[Root(m, y)])
    decreases k
  {
    RootUnfold(m, y);
    if IsFull(g[id]) {
      EnumRoot(g, m, id);
    }
    if IsRoot(m0, y) {
      if IsFull(g[y]) {
        EnumRoot(g, m, y);
      }
    } else if m[y] == m0[y] {
      FullStays(g, m0, m, id, m0[y], k - 1);
    }
  }

  /** Enums below i are mapped already, and so are their roots. */
  lemma EarlyRoot(g: seq<BtfType>, m: Links, i: Id, x: Id)
    requires |g| == |m| <= MAX_NR_TYPES + 1 && Forest(m) && LinksOk(g, m) && FreshFrom(g, m, i) && PrimsUpTo(g, m, i)
    requires x < i && x < |g| && g[x].info.kind == Enum
    ensures Root(m, x) < i && Canonical(m, Root(m, x)) && g[Root(m, x)].info.kind == Enum
  {
    var p := (y: nat) => y < |g| && y < i && g[y].info.kind == Enum;
    RootKeeps(m, x, Steps(m, x), p);
  }

  lemma SameHash(t: BtfType, u: BtfType)
    requires WellFormed(t) && WellFormed(u) && StandsFor(t, u)
    ensures HashOf(t) == HashOf(u)
  {
  }

  /** The candidates drawn are all there are. */
  ghost predicate Drawn(g: seq<BtfType>, m: Links, id: Id, cands: seq<Id>)
    requires |g| == |m| && Closed(g) && id < |g|
  {
    forall c: Id :: ShouldBeFiled(g, m, c) && HashOf(g[c]) == HashOf(g[id]) ==> c in cands
  }

  ghost predicate Stepping(g: seq<BtfType>, m0: Links, m1: Links, id: Id, cands: seq<Id>, newId: Id, n: nat) {
    && |g| == |m0| == |m1| <= MAX_NR_TYPES + 1 && Closed(g) && Forest(m0) && LinksOk(g, m0)
    && 0 < id < |g| && !Mapped(m0, id) && newId <= id
    && Forest(m1[id := newId]) && LinksOk(g, m1[id := newId])
    && FreshFrom(g, m0, id) && PrimsUpTo(g, m0, id) && Drawn(g, m0, id, cands)
    && SearchedTo(g, true, m0, m1, id, cands, newId, n)
    && EnumsResolved(g, m0, id)
  }

  lemma StillFull(g: seq<BtfType>, m0: Links, m1: Links, id: Id, cands: seq<Id>, newId: Id, n: nat, y: Id)
    requires Stepping(g, m0, m1, id, cands, newId, n) && y < |g|
    requires var r := Root(m0, y); IsFull(g[r]) || (r != id && m1[r] == id && IsFull(g[id]))
    ensures IsFull(g[Root(m1[id := newId], y)])
  {
    hide FreshFrom, PrimsUpTo, Drawn, EnumsResolved, Forest, LinksOk, Closed, TakenFor, StandsFor;
    FullStays(g, m0, m1[id := newId], id, y, Steps(m0, y));
  }

  /** The root of an earlier enum of the same hash is among the candidates. */
  lemma RootIsDrawn(g: seq<BtfType>, m: Links, id: Id, cands: seq<Id>, x: Id)
    requires |g| == |m| <= MAX_NR_TYPES + 1 && Closed(g) && Forest(m) && LinksOk(g, m) && 0 < id < |g|
    requires FreshFrom(g, m, id) && PrimsUpTo(g, m, id) && Drawn(g, m, id, cands)
    requires x < id && g[x].info.kind == Enum
    ensures Root(m, x) < id && g[Root(m, x)].info.kind == Enum
    ensures g[Root(m, x)] == g[x] || StandsFor(g[x], g[Root(m, x)])
    ensures StandsFor(g[id], g[Root(m, x)]) || StandsFor(g[Root(m, x)], g[id]) ==> Root(m, x) in cands
  {
    var r := Root(m, x);
    EnumRoot(g, m, x);
    EarlyRoot(g, m, id, x);
    assert g[0] == VOID;
    assert ShouldBeFiled(g, m, r);
    if StandsFor(g[id], g[r]) {
      SameHash(g[id], g[r]);
    } else if StandsFor(g[r], g[id]) {
      SameHash(g[r], g[id]);
    }
  }

  lemma DrawnRoot(g: seq<BtfType>, m0: Links, m1: Links, id: Id, cands: seq<Id>, newId: Id, n: nat, x: Id)
    requires Stepping(g, m0, m1, id, cands, newId, n) && x < id && g[x].info.kind == Enum
    ensures Root(m0, x) < id && g[Root(m0, x)].info.kind == Enum
    ensures g[Root(m0, x)] == g[x] || StandsFor(g[x], g[Root(m0, x)])
    ensures StandsFor(g[id], g[Root(m0, x)]) || StandsFor(g[Root(m0, x)], g[id]) ==> Root(m0, x) in cands
  {
    hide FreshFrom, PrimsUpTo, Drawn, EnumsResolved, Forest, LinksOk, Closed, SearchedTo, StandsFor;
    RootIsDrawn(g, m0, id, cands, x);
  }

  /** An earlier type defines the forward enum id, or declares what it does. */
  lemma Earlier(g: seq<BtfType>, m0: Links, m1: Links, id: Id, cands: seq<Id>, newId: Id, n: nat, f: Id, e: Id)
    requires Stepping(g, m0, m1, id, cands, newId, n) && f < id && e < id
    requires IsFull(g[e]) && StandsFor(g[f], g[e])
    ensures IsFull(g[Root(m0, f)]) && IsFull(g[Root(m1[id := newId], f)])
  {
    assert IsFull(g[Root(m0, f)]);
    hide *;
    StillFull(g, m0, m1, id, cands, newId, n, f);
  }

  /** A forward enum that has its definition among the earlier types is resolved at once. */
  lemma LateForward(g: seq<BtfType>, m0: Links, m1: Links, id: Id, cands: seq<Id>, newId: Id, n: nat, e: Id)
    requires Stepping(g, m0, m1, id, cands, newId, n) && e < id && IsFull(g[e]) && StandsFor(g[id], g[e])
    ensures IsFull(g[Root(m1[id := newId], id)])
  {
    hide FreshFrom, PrimsUpTo, Drawn, EnumsResolved, Forest, LinksOk, Closed, Root;
    var r := Root(m0, e);
    DrawnRoot(g, m0, m1, id, cands, newId, n, e);
    assert r in cands && TakenFor(g, true, id, r);
    assert n < |cands|;
    RootUnfold(m1[id := newId], id);
    if IsFull(g[newId]) {
      EnumRoot(g, m1[id := newId], newId);
    } else if newId < id {
      Earlier(g, m0, m1, id, cands, newId, n, newId, e);
    }
  }

  /** A full enum takes over the forward enums before it, unless one like it has. */
  lemma LateFull(g: seq<BtfType>, m0: Links, m1: Links, id: Id, cands: seq<Id>, newId: Id, n: nat, f: Id)
    requires Stepping(g, m0, m1, id, cands, newId, n) && f < id && IsFull(g[id]) && StandsFor(g[f], g[id])
    ensures IsFull(g[Root(m1[id := newId], f)])
  {
    hide FreshFrom, PrimsUpTo, Drawn, EnumsResolved, Forest, LinksOk, Closed, Root;
    var r := Root(m0, f);
    DrawnRoot(g, m0, m1, id, cands, newId, n, f);
    if newId < id {
      Earlier(g, m0, m1, id, cands, newId, n, f, newId);
    } else {
      assert !IsFull(g[r]) ==> r in cands[..n];
      StillFull(g, m0, m1, id, cands, newId, n, f);
    }
  }

  /** One type of the primitive pass. */
  lemma EnumsNext(g: seq<BtfType>, m0: Links, m1: Links, id: Id, cands: seq<Id>, newId: Id, n: nat)
    requires Stepping(g, m0, m1, id, cands, newId, n)
    ensures EnumsResolved(g, m1[id := newId], id + 1)
  {
    forall f, e | 0 <= f <= id && 0 <= e <= id && IsFull(g[e]) && StandsFor(g[f], g[e])
      ensures IsFull(g[Root(m1[id := newId], f)])
    {
      if f == id {
        LateForward(g, m0, m1, id, cands, newId, n, e);
      } else if e == id {
        LateFull(g, m0, m1, id, cands, newId, n, f);
      } else {
        Earlier(g, m0, m1, id, cands, newId, n, f, e);
      }
    }
  }

  /** A type that is no enum changes nothing for them. */
  lemma EnumsSkip(g: seq<BtfType>, m: Links, id: Id)
    requires Forest(m) && |g| == |m| && EnumsResolved(g, m, id) && id < |g| && g[id].info.kind != Enum
    ensures EnumsResolved(g, m, id + 1)
  {
  }

  /** The links of enums are as they were. */
  ghost predicate SameEnums(g: seq<BtfType>, m0: Links, m: Links) {
    |g| == |m0| == |m| && forall x :: 0 <= x < |g| && g[x].info.kind == Enum ==> m[x] == m0[x]
  }

  lemma SameEnumsRefl(g: seq<BtfType>, m: Links)
    requires |g| == |m|
    ensures SameEnums(g, m, m)
  {
  }

  lemma EnumsProgress(g: seq<BtfType>, m0: Links, m1: Links, m2: Links, id: Id)
    requires SameEnums(g, m0, m1) && Progress(g, m1, m2, id)
    ensures SameEnums(g, m0, m2)
  {
  }

  lemma EnumsAfterRefs(g: seq<BtfType>, h: seq<BtfType>, m0: Links, m: Links)
    requires |g| == |m0| && RefStep(g, h, m0, m) && Grounded(g, m0)
    ensures SameEnums(g, m0, m)
  {
    forall x | 0 <= x < |g| && g[x].info.kind == Enum
      ensures m[x] == m0[x]
    {
      assert x !in Waiting(m0);
    }
  }

  lemma {:induction false} SameEnumRoot(g: seq<BtfType>, m0: Links, m: Links, x: Id, k: nat)
    requires SameEnums(g, m0, m) && Forest(m0) && Forest(m) && LinksOk(g, m0)
    requires x < |g| && g[x].info.kind == Enum && Settles(m0, x, k)
    ensures Root(m, x) == RootWithin(m0, x, k)
    decreases k
  {
    RootUnfold(m, x);
    if !IsRoot(m0, x) {
      assert LinkOk(g[x], g[m0[x]]);
      SameEnumRoot(g, m0, m, m0[x], k - 1);
    }
  }

  lemma EnumsStay(g: seq<BtfType>, m0: Links, m: Links, n: nat)
    requires SameEnums(g, m0, m) && Forest(m0) && Forest(m) && LinksOk(g, m0) && EnumsResolved(g, m0, n)
    ensures EnumsResolved(g, m, n)
  {
    forall f, e | 0 <= f < n && 0 <= e < n && f < |g| && e < |g| && IsFull(g[e]) && StandsFor(g[f], g[e])
      ensures IsFull(g[Root(m, f)])
    {
      SameEnumRoot(g, m0, m, f, Steps(m0, f));
      assert Root(m, f) == Root(m0, f);
      hide IsFull, Forest, LinksOk;
    }
  }
}
