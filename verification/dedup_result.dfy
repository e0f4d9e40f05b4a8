/** What compaction and remapping make of a finished canonical map. */
module DedupResult {
  import opened BtfTypes
  import opened BtfCompare
  import opened CanonMap
  import opened DedupState
  import opened DedupEquiv
  import HashMaps

  /** The representatives below n, in order. */
  function Survivors(m: Links, n: nat): (s: seq<Id>)
    requires n <= |m|
    ensures |s| <= n
  {
    if n == 0 then []
    else Survivors(m, n - 1) + (if m[n - 1] == n - 1 then [n - 1] else [])
  }

  /** The survivors are exactly the representatives, in increasing order. */
  lemma {:induction false} SurvivorsAre(m: Links, n: nat)
    requires n <= |m|
    ensures forall j ::
              0 <= j < |Survivors(m, n)| ==> Survivors(m, n)[j] < n && m[Survivors(m, n)[j]] == Survivors(m, n)[j]
    ensures forall i, j :: 0 <= i < j < |Survivors(m, n)| ==> Survivors(m, n)[i] < Survivors(m, n)[j]
    ensures forall x: Id :: x < n && m[x] == x ==> x in Survivors(m, n)
  {
    if n > 0 {
      SurvivorsAre(m, n - 1);
    }
  }

  /** The new numbers: consecutive for the representatives below n, none for the rest. */
  ghost predicate Numbered(m: Links, ids: Links, n: nat)
    requires n <= |m|
  {
    && |ids| == |m|
    && (forall j :: 0 <= j < |Survivors(m, n)| ==> Survivors(m, n)[j] < |ids| && ids[Survivors(m, n)[j]] == j)
    && (forall x :: 0 <= x < |ids| && (x >= n || m[x] != x) ==> ids[x] == UNPROCESSED)
  }

  /** The records of the representatives below n, in order. */
  ghost predicate Compacted(g: seq<BtfType>, m: Links, h: seq<BtfType>, n: nat)
    requires |g| == |m| && n <= |m|
  {
    |Survivors(m, n)| <= |h| && forall j :: 0 <= j < |Survivors(m, n)| ==>
                                              Survivors(m, n)[j] < |g| && h[j] == g[Survivors(m, n)[j]]
  }

  ghost predicate AllMapped(m: Links) {
    Forest(m) && forall x :: 0 <= x < |m| ==> Mapped(m, x)
  }

  lemma RootCanonical(m: Links, x: Id)
    requires AllMapped(m) && x < |m| <= MAX_NR_TYPES + 1
    ensures Canonical(m, Root(m, x))
  {
  }

  /** The final id of an original type. */
  ghost function NewId(m: Links, ids: Links, x: Id): nat
    requires Forest(m) && |ids| == |m| && x < |m|
  {
    ids[Root(m, x)]
  }

  /** The final ids, from the map and the numbers of its representatives. */
  ghost function NewIds(m: Links, ids: Links): Id -> Id {
    (x: Id) => if Forest(m) && x < |m| == |ids| then NewId(m, ids, x) else 0
  }

  ghost predicate RefsBelow(t: BtfType, n: nat) {
    forall i :: 0 <= i < |Refs(t)| ==> Refs(t)[i] < n
  }

  /** A descriptor with all its references renumbered. */
  ghost function Remapped(m: Links, ids: Links, t: BtfType): BtfType
    requires Forest(m) && |ids| == |m| && RefsBelow(t, |m|)
  {
    SetRefs(t, seq(|Refs(t)|, i requires 0 <= i < |Refs(t)| => NewId(m, ids, Refs(t)[i])))
  }

  /** The first n records are renumbered, the others are still as they were. */
  ghost predicate RemappedTo(m: Links, ids: Links, g: seq<BtfType>, h: seq<BtfType>, n: nat)
    requires Forest(m) && |ids| == |m|
  {
    && |g| == |h| && n <= |g|
    && (forall j :: 0 <= j < |g| ==> RefsBelow(g[j], |m|))
    && (forall j :: 0 <= j < n ==> h[j] == Remapped(m, ids, g[j]))
    && (forall j :: n <= j < |g| ==> h[j] == g[j])
  }

  /** The graph of the representatives, renumbered. */
  ghost predicate IsResult(g: seq<BtfType>, m: Links, ids: Links, out: seq<BtfType>)
    requires |g| == |m| && Forest(m)
  {
    && Closed(g) && Numbered(m, ids, |m|)
    && |out| == |Survivors(m, |m|)|
    && forall j :: 0 <= j < |out| ==> Survivors(m, |m|)[j] < |g|
                                      && out[j] == Remapped(m, ids, g[Survivors(m, |m|)[j]])
  }

  lemma NewIdOf(g: seq<BtfType>, m: Links, ids: Links, out: seq<BtfType>, x: Id)
    requires |g| == |m| && Forest(m) && IsResult(g, m, ids, out) && x < |m| && m[x] == x
    ensures ids[x] < |out| && out[ids[x]] == Remapped(m, ids, g[x])
  {
    SurvivorsAre(m, |m|);
    var j :| 0 <= j < |Survivors(m, |m|)| && Survivors(m, |m|)[j] == x;
  }

  ghost predicate AgreesTo(g: seq<BtfType>, m: Links, ids: Links, out: seq<BtfType>, k: nat)
    requires |g| == |m| == |ids|
  {
    forall x: Id :: x < |g| && m[x] == x ==> Unfold(out, ids[x], k) == Unfold(g, x, k)
  }

  lemma ReferenceAgrees(g: seq<BtfType>, m: Links, ids: Links, out: seq<BtfType>, r: Id, k: nat)
    requires |g| == |m| == |ids| <= MAX_NR_TYPES + 1 && AllMapped(m) && AgreesTo(g, m, ids, out, k)
    requires r < |m| && Alike(g, r, g, Root(m, r))
    ensures Unfold(out, NewId(m, ids, r), k) == Unfold(g, r, k)
  {
    RootCanonical(m, r);
    assert Unfold(g, r, k) == Unfold(g, Root(m, r), k);
  }

  lemma AgreesDeeper(g: seq<BtfType>, m: Links, ids: Links, out: seq<BtfType>, x: Id, k: nat)
    requires |g| == |m| == |ids| <= MAX_NR_TYPES + 1 && AllMapped(m) && IsResult(g, m, ids, out)
    requires forall y: Id :: y < |g| ==> Alike(g, y, g, Root(m, y))
    requires AgreesTo(g, m, ids, out, k) && x < |g| && m[x] == x
    ensures Unfold(out, ids[x], k + 1) == Unfold(g, x, k + 1)
  {
    NewIdOf(g, m, ids, out, x);
    var rs := Refs(g[x]);
    var qs := seq(|rs|, i requires 0 <= i < |rs| => NewId(m, ids, rs[i]));
    SetRefsKeepsLabel(g[x], qs);
    assert Refs(out[ids[x]]) == qs;
    forall i | 0 <= i < |rs|
      ensures Unfold(out, qs[i], k) == Unfold(g, rs[i], k)
    {
      ReferenceAgrees(g, m, ids, out, rs[i], k);
    }
    UnfoldStep(out, ids[x], g, x, k);
  }

  lemma AgreesAtZero(g: seq<BtfType>, m: Links, ids: Links, out: seq<BtfType>)
    requires |g| == |m| == |ids|
    ensures AgreesTo(g, m, ids, out, 0)
  {
  }

  lemma {:induction false} ResultAgrees(g: seq<BtfType>, m: Links, ids: Links, out: seq<BtfType>, k: nat)
    requires |g| == |m| == |ids| <= MAX_NR_TYPES + 1 && AllMapped(m) && IsResult(g, m, ids, out)
    requires forall y: Id :: y < |g| ==> Alike(g, y, g, Root(m, y))
    ensures AgreesTo(g, m, ids, out, k)
  {
    hide IsResult, Alike, AllMapped, Root, Unfold;
    if k == 0 {
      AgreesAtZero(g, m, ids, out);
    } else {
      ResultAgrees(g, m, ids, out, k - 1);
      forall x: Id | x < |g| && m[x] == x
        ensures Unfold(out, ids[x], k) == Unfold(g, x, k)
      {
        AgreesDeeper(g, m, ids, out, x, k - 1);
      }
    }
  }

  /** Every original type means the same as the type it is renumbered to. */
  lemma ResultMeans(g: seq<BtfType>, m: Links, ids: Links, out: seq<BtfType>, x: Id)
    requires |g| == |m| <= MAX_NR_TYPES + 1 && AllMapped(m) && IsResult(g, m, ids, out)
    requires forall y: Id :: y < |g| ==> Alike(g, y, g, Root(m, y))
    requires x < |g|
    ensures Alike(g, x, out, NewId(m, ids, x))
  {
    RootCanonical(m, x);
    var r := Root(m, x);
    forall k: nat
      ensures Unfold(g, x, k) == Unfold(out, ids[r], k)
    {
      ResultAgrees(g, m, ids, out, k);
      ReferenceAgrees(g, m, ids, out, x, k);
    }
  }

  /** Every reference of the result names a type of the result. */
  lemma ResultClosed(g: seq<BtfType>, m: Links, ids: Links, out: seq<BtfType>)
    requires |g| == |m| <= MAX_NR_TYPES + 1 && AllMapped(m) && IsResult(g, m, ids, out) && m[0] == 0
    ensures Closed(out)
  {
    SurvivorsAre(m, |m|);
    NewIdOf(g, m, ids, out, 0);
    assert Survivors(m, |m|)[0] == 0;
    SetOwnRefs(VOID);
    forall j | 0 <= j < |out|
      ensures WellFormed(out[j]) && forall i :: 0 <= i < |Refs(out[j])| ==> Refs(out[j])[i] < |out|
    {
      var t := g[Survivors(m, |m|)[j]];
      forall i | 0 <= i < |Refs(t)|
        ensures NewId(m, ids, Refs(t)[i]) < |out|
      {
        RootCanonical(m, Refs(t)[i]);
        NewIdOf(g, m, ids, out, Root(m, Refs(t)[i]));
      }
    }
  }

  /** Each struct or union lies in a compilation unit that has no duplicates of its own. */
  ghost predicate MadeOfUnits(g: seq<BtfType>) {
    forall x: Id :: x < |g| && IsComposite(g[x].info.kind) ==> InUnit(g, x)
  }

  ghost predicate InUnit(g: seq<BtfType>, x: Id) {
    exists cu: set<Id> :: x in cu && Unit(g, cu)
  }

  /** A unit that a struct or union lies in. */
  ghost function UnitOf(g: seq<BtfType>, x: Id): (cu: set<Id>)
    requires x < |g|
    ensures MadeOfUnits(g) && IsComposite(g[x].info.kind) ==> x in cu && Unit(g, cu)
  {
    if InUnit(g, x) then
      var cu: set<Id> :| x in cu && Unit(g, cu);
      cu
    else {}
  }

  /** No two representatives that are structs or unions mean the same. */
  ghost predicate StructsDistinct(g: seq<BtfType>, m: Links)
    requires |g| == |m|
  {
    forall x: Id, y: Id ::
      Canonical(m, x) && Canonical(m, y) && x != y && IsComposite(g[x].info.kind) ==> !Alike(g, x, g, y)
  }

  /** The same for those that FWD resolution, if it is on, has nothing to do with. */
  ghost predicate ClearDistinct(g: seq<BtfType>, m: Links, resolveFwds: bool)
    requires |g| == |m|
  {
    forall x: Id, y: Id ::
      Canonical(m, x) && Canonical(m, y) && x != y && IsComposite(g[x].info.kind) ==>
        !resolveFwds || PlainFrom(g, x) ==> !Alike(g, x, g, y)
  }

  lemma AllDistinct(g: seq<BtfType>, m: Links, resolveFwds: bool)
    requires |g| == |m| && ClearDistinct(g, m, resolveFwds) && (!resolveFwds || NoForwards(g))
    ensures StructsDistinct(g, m)
  {
    forall x: Id
      ensures !resolveFwds || PlainFrom(g, x)
    {
      if resolveFwds {
        forall k: nat
          ensures !ForwardWithin(g, x, k)
        {
          NoForwardWithin(g, x, k);
        }
      }
    }
  }

  /** No two primitive or reference representatives are the same record. */
  ghost predicate RecordsDistinct(g: seq<BtfType>, m: Links)
    requires |g| == |m|
  {
    forall x: Id, y: Id ::
      Canonical(m, x) && Canonical(m, y) && x > 0 && y > 0 && !IsKept(g[x].info.kind) ==> !Twins(g, x, y)
  }

  /** Representatives that mean the same are the same. */
  lemma {:induction false} MeaningIsIdentity(g: seq<BtfType>, m: Links, x: Id, y: Id, f: nat)
    requires |g| == |m| && Closed(g) && Stable(g, m) && Grounded(g, m)
    requires StructsDistinct(g, m) && RecordsDistinct(g, m) && OrdinaryRefs(g)
    requires forall z :: 0 < z < |g| ==> g[z].info.kind != Unkn
    requires Canonical(m, x) && Canonical(m, y) && Ends(g, m, x, f) && Alike(g, x, g, y)
    requires g[x].info.kind != Var && g[x].info.kind != DataSec
    ensures x == y
    decreases f
  {
    AlikeParts(g, x, g, y);
    if IsComposite(g[x].info.kind) || x == 0 || y == 0 {
    } else if IsPrimKind(g[x].info.kind) {
      PrimLabel(g[x]);
      PrimLabel(g[y]);
      assert !Twins(g, x, y);
    } else {
      assert IsRefKind(g[x].info.kind);
      assert StableAt(g, m, x) && StableAt(g, m, y);
      forall i | 0 <= i < |Refs(g[x])|
        ensures Refs(g[x])[i] == Refs(g[y])[i]
      {
        MeaningIsIdentity(g, m, Refs(g[x])[i], Refs(g[y])[i], f - 1);
      }
      LabelAndRefs(g[x], g[y]);
      assert !Twins(g, x, y);
    }
  }

  /** No two types of the result, variables and sections aside, mean the same. */
  ghost predicate Minimal(out: seq<BtfType>) {
    forall i: Id, j: Id ::
      i < |out| && j < |out| && i != j && out[i].info.kind != Var && out[i].info.kind != DataSec ==>
                             !Alike(out, i, out, j)
  }

  lemma ResultMinimal(g: seq<BtfType>, m: Links, ids: Links, out: seq<BtfType>)
    requires |g| == |m| <= MAX_NR_TYPES + 1 && AllMapped(m) && IsResult(g, m, ids, out)
    requires forall y: Id :: y < |g| ==> Alike(g, y, g, Root(m, y))
    requires Stable(g, m) && Grounded(g, m) && StructsDistinct(g, m) && RecordsDistinct(g, m) && OrdinaryRefs(g)
    requires forall z :: 0 < z < |g| ==> g[z].info.kind != Unkn
    ensures Minimal(out)
  {
    SurvivorsAre(m, |m|);
    forall i: Id, j: Id | i < |out| && j < |out| && i != j && out[i].info.kind != Var && out[i].info.kind != DataSec
      ensures !Alike(out, i, out, j)
    {
      var x, y := Survivors(m, |m|)[i], Survivors(m, |m|)[j];
      if Alike(out, i, out, j) {
        SurvivorMeans(g, m, ids, out, i);
        SurvivorMeans(g, m, ids, out, j);
        AlikeSym(g, y, out, j);
        AlikeTrans(g, x, out, i, out, j);
        AlikeTrans(g, x, out, j, g, y);
        assert StableAt(g, m, x);
        assert !IsRefKind(g[x].info.kind) ==> Ends(g, m, x, 0);
        var f: nat :| Ends(g, m, x, f);
        MeaningIsIdentity(g, m, x, y, f);
      }
    }
  }

  /** No two records of the result other than structs, unions, variables and sections
      are the same. */
  ghost predicate NoCopies(out: seq<BtfType>) {
    forall i, j :: 0 <= i < j < |out| && out[i] == out[j] ==>
                     IsComposite(out[j].info.kind) || out[j].info.kind == Var || out[j].info.kind == DataSec
  }

  /** Records whose references all represent themselves are told apart by their numbers. */
  lemma RemappedTells(m: Links, ids: Links, t: BtfType, u: BtfType)
    requires Forest(m) && Numbered(m, ids, |m|) && RefsBelow(t, |m|) && RefsBelow(u, |m|)
    requires forall i :: 0 <= i < |Refs(t)| ==> Canonical(m, Refs(t)[i])
    requires forall i :: 0 <= i < |Refs(u)| ==> Canonical(m, Refs(u)[i])
    requires Remapped(m, ids, t) == Remapped(m, ids, u)
    ensures t == u
  {
    SurvivorsAre(m, |m|);
    var p, q := Refs(Remapped(m, ids, t)), Refs(Remapped(m, ids, u));
    assert |Refs(t)| == |p| == |q| == |Refs(u)|;
    forall i | 0 <= i < |p|
      ensures Refs(t)[i] == Refs(u)[i]
    {
      assert p[i] == q[i];
      RootUnfold(m, Refs(t)[i]);
      RootUnfold(m, Refs(u)[i]);
      hide Refs, Remapped, Forest;
      NumbersTell(m, ids, Refs(t)[i], Refs(u)[i]);
    }
    SetRefsKeepsLabel(t, p);
    SetRefsKeepsLabel(u, p);
    LabelAndRefs(t, u);
  }

  lemma NumbersTell(m: Links, ids: Links, x: Id, y: Id)
    requires Numbered(m, ids, |m|) && Canonical(m, x) && Canonical(m, y) && ids[x] == ids[y]
    ensures x == y
  {
    SurvivorsAre(m, |m|);
    var i :| 0 <= i < |Survivors(m, |m|)| && Survivors(m, |m|)[i] == x;
    var j :| 0 <= j < |Survivors(m, |m|)| && Survivors(m, |m|)[j] == y;
  }

  /** The references of a primitive or reference representative represent themselves. */
  lemma RefsCanonical(g: seq<BtfType>, m: Links, x: Id)
    requires |g| == |m| && Closed(g) && Stable(g, m) && Canonical(m, x)
    requires IsPrimKind(g[x].info.kind) || IsRefKind(g[x].info.kind)
    ensures forall i :: 0 <= i < |Refs(g[x])| ==> Canonical(m, Refs(g[x])[i])
  {
    if IsPrimKind(g[x].info.kind) {
      PrimLabel(g[x]);
    } else {
      assert StableAt(g, m, x);
    }
  }

  lemma SameRecordIsOne(g: seq<BtfType>, m: Links, ids: Links, x: Id, y: Id)
    requires |g| == |m| && Closed(g) && Forest(m) && Numbered(m, ids, |m|) && Stable(g, m) && RecordsDistinct(g, m)
    requires Canonical(m, x) && Canonical(m, y) && x > 0 && y > 0 && RefsBelow(g[x], |m|) && RefsBelow(g[y], |m|)
    requires IsPrimKind(g[x].info.kind) || IsRefKind(g[x].info.kind)
    requires Remapped(m, ids, g[x]) == Remapped(m, ids, g[y])
    ensures x == y
  {
    assert g[x].info == Remapped(m, ids, g[x]).info == g[y].info;
    hide Remapped, Refs, Label, Forest, Stable, RecordsDistinct, Numbered, Closed;
    RefsCanonical(g, m, x);
    RefsCanonical(g, m, y);
    RemappedTells(m, ids, g[x], g[y]);
    NotTwins(g, m, x, y);
  }

  lemma SurvivorRecord(g: seq<BtfType>, m: Links, ids: Links, out: seq<BtfType>, j: nat)
    requires |g| == |m| <= MAX_NR_TYPES + 1 && Forest(m) && IsResult(g, m, ids, out) && j < |out| == |Survivors(m, |m|)|
    ensures var x := Survivors(m, |m|)[j];
            && x < |m| && Canonical(m, x) && RefsBelow(g[x], |m|) && out[j] == Remapped(m, ids, g[x])
            && g[x].info == out[j].info
  {
    SurvivorsAre(m, |m|);
  }

  lemma ResultNoCopies(g: seq<BtfType>, m: Links, ids: Links, out: seq<BtfType>)
    requires |g| == |m| <= MAX_NR_TYPES + 1 && Forest(m) && IsResult(g, m, ids, out)
    requires Stable(g, m) && RecordsDistinct(g, m) && forall z :: 0 < z < |g| ==> g[z].info.kind != Unkn
    ensures NoCopies(out)
  {
    SurvivorsAre(m, |m|);
    assert |out| == |Survivors(m, |m|)| && Closed(g) && Numbered(m, ids, |m|);
    assert |out| > 1 ==> g[0] == VOID;
    hide *;
    forall i, j | 0 <= i < j < |out| && out[i] == out[j]
      ensures IsComposite(out[j].info.kind) || out[j].info.kind == Var || out[j].info.kind == DataSec
    {
      SurvivorRecord(g, m, ids, out, i);
      SurvivorRecord(g, m, ids, out, j);
      var x, y := Survivors(m, |m|)[i], Survivors(m, |m|)[j];
      OtherKinds(g, y);
      if IsPrimKind(g[y].info.kind) || IsRefKind(g[y].info.kind) {
        SameRecordIsOne(g, m, ids, x, y);
      }
    }
  }

  lemma OtherKinds(g: seq<BtfType>, y: Id)
    requires y < |g|
    ensures y > 0 && g[y].info.kind != Unkn ==>
              || IsPrimKind(g[y].info.kind) || IsRefKind(g[y].info.kind) || IsComposite(g[y].info.kind)
              || g[y].info.kind == Var || g[y].info.kind == DataSec
    ensures IsPrimKind(g[y].info.kind) || IsRefKind(g[y].info.kind) ==> g[y].info.kind != Unkn
  {
  }

  lemma NotTwins(g: seq<BtfType>, m: Links, x: Id, y: Id)
    requires |g| == |m| && RecordsDistinct(g, m) && Canonical(m, x) && Canonical(m, y) && 0 < x < |g| && 0 < y < |g|
    requires !IsKept(g[x].info.kind) && !IsComposite(g[x].info.kind) && g[x] == g[y]
    ensures x == y
  {
    assert !Twins(g, x, y);
  }

  lemma SurvivorMeans(g: seq<BtfType>, m: Links, ids: Links, out: seq<BtfType>, j: nat)
    requires |g| == |m| <= MAX_NR_TYPES + 1 && AllMapped(m) && IsResult(g, m, ids, out)
    requires forall y: Id :: y < |g| ==> Alike(g, y, g, Root(m, y))
    requires j < |out| && j < |Survivors(m, |m|)|
    ensures Survivors(m, |m|)[j] < |g| && Canonical(m, Survivors(m, |m|)[j])
    ensures Alike(g, Survivors(m, |m|)[j], out, j) && out[j].info == g[Survivors(m, |m|)[j]].info
  {
    SurvivorsAre(m, |m|);
    var x := Survivors(m, |m|)[j];
    RootUnfold(m, x);
    ResultMeans(g, m, ids, out, x);
  }

  /** The primitive pass has dealt with the types below i. */
  ghost predicate PrimsUpTo(g: seq<BtfType>, m: Links, i: nat) {
    && |g| == |m|
    && (forall x :: 0 < x < i && x < |g| ==> g[x].info.kind != Unkn)
    && (forall x :: 0 <= x < i && x < |g| && IsPrimKind(g[x].info.kind) ==> Mapped(m, x))
    && (forall x :: 0 <= x < |g| && IsKept(g[x].info.kind) && (x == 0 || g[x].info.kind != Unkn) ==> Mapped(m, x))
    && (forall x :: 0 <= x < |g| && (IsRefKind(g[x].info.kind) || IsComposite(g[x].info.kind)) ==> m[x] == UNPROCESSED)
  }

  lemma PrimsUpToNext(g: seq<BtfType>, m0: Links, m: Links, i: nat)
    requires PrimsUpTo(g, m0, i) && PrimStep(g, m0, m, i) && 0 < i < |g| && g[i].info.kind != Unkn
    ensures PrimsUpTo(g, m, i + 1)
  {
  }

  lemma PrimsUpToAll(g: seq<BtfType>, m: Links)
    requires PrimsUpTo(g, m, |g|)
    ensures forall x :: 0 < x < |g| ==> g[x].info.kind != Unkn
    ensures forall x :: 0 <= x < |g| && !IsRefKind(g[x].info.kind) && !IsComposite(g[x].info.kind) ==> Mapped(m, x)
    ensures forall x: Id :: Canonical(m, x) ==> x < |g| && !IsComposite(g[x].info.kind)
  {
    forall x | 0 <= x < |g| && !IsRefKind(g[x].info.kind) && !IsComposite(g[x].info.kind)
      ensures Mapped(m, x)
    {
      assert IsPrimKind(g[x].info.kind) || IsKept(g[x].info.kind);
    }
  }

  /** The struct pass has dealt with the types below i. */
  ghost predicate StructsUpTo(g: seq<BtfType>, m: Links, i: nat) {
    && |g| == |m|
    && (forall x :: 0 <= x < |g| && !IsRefKind(g[x].info.kind) && !IsComposite(g[x].info.kind) ==> Mapped(m, x))
    && (forall x :: 0 <= x < i && x < |g| && IsComposite(g[x].info.kind) ==> Mapped(m, x))
    && (forall x :: 0 <= x < |g| && IsRefKind(g[x].info.kind) ==> m[x] == UNPROCESSED)
  }

  lemma StructsStart(g: seq<BtfType>, m: Links)
    requires |g| == |m| > 0 && g[0] == VOID
    requires forall x :: 0 <= x < |g| && !IsRefKind(g[x].info.kind) && !IsComposite(g[x].info.kind) ==> Mapped(m, x)
    requires forall x :: 0 <= x < |g| && IsRefKind(g[x].info.kind) ==> m[x] == UNPROCESSED
    ensures StructsUpTo(g, m, 1)
  {
  }

  lemma StructsUpToNext(g: seq<BtfType>, m0: Links, m: Links, i: nat)
    requires StructsUpTo(g, m0, i) && Progress(g, m0, m, i) && i < |g|
    requires IsComposite(g[i].info.kind) ==> Mapped(m, i)
    ensures StructsUpTo(g, m, i + 1)
  {
  }

  lemma StructsUpToAll(g: seq<BtfType>, m: Links)
    requires StructsUpTo(g, m, |g|) && LinksOk(g, m)
    ensures Grounded(g, m)
    ensures forall x :: 0 <= x < |g| && IsRefKind(g[x].info.kind) ==> m[x] == UNPROCESSED
  {
    forall x | 0 <= x < |g| && Mapped(m, x) && m[x] < |m|
      ensures Mapped(m, m[x])
    {
      assert LinkOk(g[x], g[m[x]]);
    }
  }

  lemma NoStructsDistinct(g: seq<BtfType>, m: Links)
    requires |g| == |m| && forall x: Id :: Canonical(m, x) ==> !IsComposite(g[x].info.kind)
    ensures StructsDistinct(g, m) && forall resolveFwds :: ClearDistinct(g, m, resolveFwds)
  {
  }

  lemma NoRefsStable(g: seq<BtfType>, m: Links)
    requires |g| == |m| && forall x :: 0 <= x < |g| && IsRefKind(g[x].info.kind) ==> m[x] == UNPROCESSED
    ensures Stable(g, m)
  {
  }

  lemma RefStepMapped(g0: seq<BtfType>, g: seq<BtfType>, m0: Links, m: Links)
    requires RefStep(g0, g, m0, m)
    ensures forall x :: 0 <= x < |m0| && Mapped(m0, x) ==> Mapped(m, x)
  {
    forall x | 0 <= x < |m0| && Mapped(m0, x)
      ensures Mapped(m, x)
    {
      assert x !in Waiting(m0);
    }
  }

  /** One more id below the bound. */
  lemma SurvivorsNext(m: Links, i: nat)
    requires i < |m|
    ensures Survivors(m, i + 1) == if m[i] == i then Survivors(m, i) + [i] else Survivors(m, i)
  {
    assert Survivors(m, i) + [] == Survivors(m, i);
  }

  /** Numbering one more id. */
  lemma NumberedStep(m: Links, ids: Links, i: nat)
    requires i < |m| && Numbered(m, ids, i)
    ensures m[i] != i ==> Numbered(m, ids, i + 1)
    ensures m[i] == i ==> Numbered(m, ids[i := |Survivors(m, i)|], i + 1)
  {
    SurvivorsAre(m, i);
    SurvivorsNext(m, i);
    hide Survivors;
  }

  /** Moving one representative down keeps the numbering and the records read so far. */
  lemma CompactStep(g: seq<BtfType>, m: Links, ids: Links, h: seq<BtfType>, i: nat)
    requires |g| == |m| == |h| && i < |m| && Numbered(m, ids, i) && Compacted(g, m, h, i) && h[i] == g[i]
    ensures m[i] != i ==> Numbered(m, ids, i + 1) && Compacted(g, m, h, i + 1)
    ensures m[i] == i ==> Numbered(m, ids[i := |Survivors(m, i)|], i + 1)
    ensures m[i] == i ==> Compacted(g, m, h[|Survivors(m, i)| := h[i]], i + 1)
  {
    NumberedStep(m, ids, i);
    SurvivorsAre(m, i);
    SurvivorsNext(m, i);
    hide Survivors, Numbered;
  }

  lemma RemappedFields(m: Links, ids: Links, t: BtfType)
    requires Forest(m) && |ids| == |m| && RefsBelow(t, |m|)
    ensures IdsRenumbered(NewIds(m, ids), t, Remapped(m, ids, t))
  {
    hide Forest, IdsRenumbered, Refs, NewId;
    SetRefsRenumbers(NewIds(m, ids), t,
                     seq(|Refs(t)|, i requires 0 <= i < |Refs(t)| => NewId(m, ids, Refs(t)[i])));
  }

  lemma AllRemappedFields(m: Links, ids: Links, g: seq<BtfType>, h: seq<BtfType>)
    requires Forest(m) && |ids| == |m| && RemappedTo(m, ids, g, h, |g|)
    ensures |g| == |h| && forall x :: 0 <= x < |g| ==> IdsRenumbered(NewIds(m, ids), g[x], h[x])
  {
    hide Forest, IdsRenumbered, NewIds, Remapped, RefsBelow;
    forall x | 0 <= x < |g|
      ensures IdsRenumbered(NewIds(m, ids), g[x], h[x])
    {
      RemappedFields(m, ids, g[x]);
    }
  }

  /** A rewritten reference gets the number that the given one gets. */
  lemma RootedNumber(t: BtfType, u: BtfType, m: Links, ids: Links, i: nat)
    requires Forest(m) && |ids| == |m| && i < |Refs(u)| && i < |Refs(t)| && Refs(t)[i] < |m| && Refs(u)[i] < |m|
    requires RefRooted(t, u, m, i)
    ensures NewId(m, ids, Refs(u)[i]) == NewId(m, ids, Refs(t)[i])
  {
    hide Forest, Refs;
    if Refs(u)[i] != Refs(t)[i] {
      RootUnfold(m, Refs(u)[i]);
    }
  }

  /** Renumbering a rewritten record is renumbering the given one. */
  lemma RemappedRooted(t: BtfType, u: BtfType, m: Links, ids: Links)
    requires Forest(m) && |ids| == |m| && RefsBelow(t, |m|) && RefsBelow(u, |m|) && Label(t) == Label(u)
    requires |Refs(t)| == |Refs(u)| && forall i :: 0 <= i < |Refs(u)| ==> RefRooted(t, u, m, i)
    ensures IdsRenumbered(NewIds(m, ids), t, Remapped(m, ids, u))
  {
    var zeros, qs := seq(|Refs(t)|, _ => 0), seq(|Refs(u)|, i requires 0 <= i < |Refs(u)| => NewId(m, ids, Refs(u)[i]));
    SetRefsTwice(t, zeros, qs);
    SetRefsTwice(u, zeros, qs);
    forall i | 0 <= i < |qs|
      ensures qs[i] == NewIds(m, ids)(Refs(t)[i])
    {
      assert RefRooted(t, u, m, i);
      hide Forest, NewId, Refs;
      RootedNumber(t, u, m, ids, i);
    }
    hide IdsRenumbered, NewIds;
    SetRefsRenumbers(NewIds(m, ids), t, qs);
  }

  /** What the state says of the references of one type. */
  lemma RefsOf(s: State, x: Id)
    requires Ok(s) && x < |s.types|
    ensures |s.canon| == |s.input| == |s.types| && Forest(s.canon) && Label(s.input[x]) == Label(s.types[x])
    ensures RefsBelow(s.input[x], |s.canon|) && RefsBelow(s.types[x], |s.canon|)
    ensures |Refs(s.input[x])| == |Refs(s.types[x])|
    ensures forall i :: 0 <= i < |Refs(s.types[x])| ==> RefRooted(s.input[x], s.types[x], s.canon, i)
  {
    hide Label, Refs, Forest, Root;
    assert |Refs(Label(s.input[x]))| == |Refs(Label(s.types[x]))|;
  }

  /** The record of a representative is the given one with its ids renumbered. */
  lemma ResultFields(s: State, ids: Links, out: seq<BtfType>, x: Id)
    requires Ok(s) && AllMapped(s.canon) && IsResult(s.types, s.canon, ids, out) && Canonical(s.canon, x)
    ensures |ids| == |s.canon| && ids[x] < |out| && IdsRenumbered(NewIds(s.canon, ids), s.input[x], out[ids[x]])
  {
    assert x < |s.types| && |ids| == |s.canon|;
    hide Ok, IdsRenumbered, NewIds, Forest, AllMapped, Label, Refs, IsResult;
    RefsOf(s, x);
    NewIdOf(s.types, s.canon, ids, out, x);
    RemappedRooted(s.input[x], s.types[x], s.canon, ids);
  }

  lemma RemapVoid(m: Links, ids: Links)
    requires Forest(m) && |ids| == |m|
    ensures RefsBelow(VOID, |m|) && Remapped(m, ids, VOID) == VOID
  {
    SetOwnRefs(VOID);
  }

  lemma RemappedIs(m: Links, ids: Links, t: BtfType, rs: seq<Id>)
    requires Forest(m) && |ids| == |m| && RefsBelow(t, |m|) && |rs| == |Refs(t)|
    requires forall j :: 0 <= j < |rs| ==> rs[j] == NewId(m, ids, Refs(t)[j])
    ensures SetRefs(t, rs) == Remapped(m, ids, t)
  {
    assert rs == seq(|Refs(t)|, i requires 0 <= i < |Refs(t)| => NewId(m, ids, Refs(t)[i]));
  }

  lemma FiledDistinct(s: State)
    requires Ok(s)
    ensures RecordsDistinct(s.types, s.canon)
  {
    forall x: Id, y: Id |
      Canonical(s.canon, x) && Canonical(s.canon, y) && x > 0 && y > 0 && !IsKept(s.types[x].info.kind)
      ensures !Twins(s.types, x, y)
    {
      if s.types[x] == s.types[y] {
        assert ShouldBeFiled(s.types, s.canon, x) && ShouldBeFiled(s.types, s.canon, y);
        var e, f := HashMaps.Entry(HashOf(s.types[x]), x), HashMaps.Entry(HashOf(s.types[y]), y);
        assert e in s.filed && f in s.filed;
        assert !Twins(s.types, e.value, f.value);
      }
    }
  }

  /** The reference pass makes no struct a representative. */
  lemma WasCanonical(g: seq<BtfType>, h: seq<BtfType>, m0: Links, m: Links, x: Id)
    requires |g| == |h| == |m0| == |m| && Grounded(g, m0) && RefStep(g, h, m0, m)
    requires Canonical(m, x) && !IsRefKind(g[x].info.kind)
    ensures Canonical(m0, x)
  {
    assert x !in Waiting(m0);
  }

  lemma ClearStillDistinct(g: seq<BtfType>, h: seq<BtfType>, m0: Links, m: Links, resolveFwds: bool)
    requires |g| == |h| == |m0| == |m| && Closed(g)
    requires Grounded(g, m0) && ClearDistinct(g, m0, resolveFwds) && RefStep(g, h, m0, m)
    ensures ClearDistinct(g, m, resolveFwds)
  {
    hide Grounded, RefStep, PlainFrom, Alike, Closed;
    forall x: Id, y: Id |
      && Canonical(m, x) && Canonical(m, y) && x != y && IsComposite(g[x].info.kind) && Alike(g, x, g, y)
      ensures Canonical(m0, x) && Canonical(m0, y)
    {
      WasCanonical(g, h, m0, m, x);
      AlikeParts(g, x, g, y);
      WasCanonical(g, h, m0, m, y);
    }
  }

  lemma StillApart(g: seq<BtfType>, h: seq<BtfType>, m0: Links, m: Links, x: Id, y: Id)
    requires |g| == |h| == |m0| == |m| && SameMeaning(g, h) && SameLabels(g, h)
    requires Grounded(g, m0) && StructsDistinct(g, m0) && RefStep(g, h, m0, m)
    requires Canonical(m, x) && Canonical(m, y) && x != y && IsComposite(h[x].info.kind)
    ensures !Alike(h, x, h, y)
  {
    assert Label(g[x]) == Label(h[x]);
    hide Alike, Unfold, Label, Refs, SameMeaning, SameLabels, Grounded, RefStep, Canonical;
    AlikeTransfer(g, h, x, y);
    if Alike(g, x, g, y) {
      AlikeParts(g, x, g, y);
      assert g[x].info == h[x].info && g[y].info == g[x].info;
      WasCanonical(g, h, m0, m, x);
      WasCanonical(g, h, m0, m, y);
    }
  }

  lemma StructsStillDistinct(g: seq<BtfType>, h: seq<BtfType>, m0: Links, m: Links)
    requires |g| == |h| == |m0| == |m| && SameMeaning(g, h) && SameLabels(g, h)
    requires Grounded(g, m0) && StructsDistinct(g, m0) && RefStep(g, h, m0, m)
    ensures StructsDistinct(h, m)
  {
    hide Alike, SameMeaning, SameLabels, Grounded, RefStep;
    forall x: Id, y: Id | Canonical(m, x) && Canonical(m, y) && x != y && IsComposite(h[x].info.kind)
      ensures !Alike(h, x, h, y)
    {
      StillApart(g, h, m0, m, x, y);
    }
  }

  lemma RefsStillOrdinary(g: seq<BtfType>, h: seq<BtfType>)
    requires Closed(g) && Closed(h) && SameMeaning(g, h) && OrdinaryRefs(g)
    ensures OrdinaryRefs(h)
  {
    forall x, i | 0 <= x < |h| && 0 <= i < |Refs(h[x])| && h[x].info.kind != DataSec
      ensures h[Refs(h[x])[i]].info.kind != Var && h[Refs(h[x])[i]].info.kind != DataSec
    {
      assert Alike(g, x, h, x);
      AlikeParts(g, x, h, x);
      AlikeParts(g, Refs(g[x])[i], h, Refs(h[x])[i]);
    }
  }

  lemma RootsMean(s: State, x: Id)
    requires Ok(s) && !s.resolveFwds && x < |s.types|
    ensures Alike(s.types, x, s.types, Root(s.canon, x))
  {
    SoundRoot(s.input, s.canon, x);
    AlikeTransfer(s.input, s.types, x, Root(s.canon, x));
  }

  /** The deduplicated object means what the given one meant. */
  lemma DedupMeans(s: State, ids: Links, out: seq<BtfType>, x: Id)
    requires Ok(s) && !s.resolveFwds && AllMapped(s.canon) && IsResult(s.types, s.canon, ids, out) && x < |s.input|
    ensures Alike(s.input, x, out, NewId(s.canon, ids, x))
  {
    forall y: Id | y < |s.types|
      ensures Alike(s.types, y, s.types, Root(s.canon, y))
    {
      RootsMean(s, y);
    }
    ResultMeans(s.types, s.canon, ids, out, x);
    assert Alike(s.input, x, s.types, x);
    AlikeTrans(s.input, x, s.types, x, out, NewId(s.canon, ids, x));
  }

  /** It has no two types of the same meaning, when it was put together from
      compilation units that had none. */
  lemma DedupMinimal(s: State, m1: Links, ids: Links, out: seq<BtfType>)
    requires Ok(s) && !s.resolveFwds && AllMapped(s.canon) && IsResult(s.types, s.canon, ids, out)
    requires Stable(s.types, s.canon) && Grounded(s.types, s.canon) && OrdinaryRefs(s.input)
    requires |m1| == |s.input| && Grounded(s.input, m1) && StructsDistinct(s.input, m1)
    requires RefStep(s.input, s.types, m1, s.canon)
    requires forall z :: 0 < z < |s.types| ==> s.types[z].info.kind != Unkn
    ensures Minimal(out)
  {
    hide Closed, Stable, Grounded, StructsDistinct, AllMapped, IsResult, Minimal, RecordsDistinct, OrdinaryRefs,
         RefStep, Alike;
    forall y: Id | y < |s.types|
      ensures Alike(s.types, y, s.types, Root(s.canon, y))
    {
      RootsMean(s, y);
    }
    FiledDistinct(s);
    StructsStillDistinct(s.input, s.types, m1, s.canon);
    RefsStillOrdinary(s.input, s.types);
    ResultMinimal(s.types, s.canon, ids, out);
  }

  /** Every original type has a number in the result, and every reference in it is one. */
  lemma DedupClosed(s: State, ids: Links, out: seq<BtfType>)
    requires Ok(s) && AllMapped(s.canon) && IsResult(s.types, s.canon, ids, out)
    ensures Closed(out) && forall x: Id :: x < |s.input| ==> NewId(s.canon, ids, x) < |out|
  {
    ResultClosed(s.types, s.canon, ids, out);
    forall x: Id | x < |s.input|
      ensures NewId(s.canon, ids, x) < |out|
    {
      RootCanonical(s.canon, x);
      NewIdOf(s.types, s.canon, ids, out, Root(s.canon, x));
    }
  }

  /** Every type of the result is the new form of some representative. */
  ghost predicate Onto(m: Links, ids: Links, n: nat)
    requires Forest(m) && |ids| == |m|
  {
    forall j: Id :: j < n ==> Comes(m, ids, j)
  }

  ghost predicate Comes(m: Links, ids: Links, j: Id)
    requires Forest(m) && |ids| == |m|
  {
    exists x: Id :: Canonical(m, x) && NewId(m, ids, x) == j
  }

  lemma ResultOnto(g: seq<BtfType>, m: Links, ids: Links, out: seq<BtfType>)
    requires |g| == |m| == |ids| <= MAX_NR_TYPES + 1 && Forest(m) && IsResult(g, m, ids, out)
    ensures Onto(m, ids, |out|)
  {
    SurvivorsAre(m, |m|);
    forall j: Id | j < |out|
      ensures Comes(m, ids, j)
    {
      var x := Survivors(m, |m|)[j];
      RootUnfold(m, x);
      assert NewId(m, ids, x) == j;
    }
  }

  /** The numbers of a finished map are numbers of compacted records. */
  lemma NumbersInRange(m: Links, ids: Links, x: Id)
    requires AllMapped(m) && Numbered(m, ids, |m|) && x < |m| <= MAX_NR_TYPES + 1
    ensures NewId(m, ids, x) < |Survivors(m, |m|)| <= MAX_NR_TYPES + 1
  {
    SurvivorsAre(m, |m|);
    RootCanonical(m, x);
    var j :| 0 <= j < |Survivors(m, |m|)| && Survivors(m, |m|)[j] == Root(m, x);
  }

  /** What remapping needs of the compacted records. */
  lemma CompactedReady(g: seq<BtfType>, m: Links, h: seq<BtfType>)
    requires |g| == |m| > 0 && Closed(g) && m[0] == 0 && Compacted(g, m, h, |m|) && |h| == |Survivors(m, |m|)|
    requires forall z :: 0 < z < |g| ==> g[z].info.kind != Unkn
    ensures |h| > 0 && h[0] == VOID
    ensures forall j :: 0 <= j < |h| ==> RefsBelow(h[j], |m|)
    ensures forall j :: 0 < j < |h| ==> h[j].info.kind != Unkn
  {
    SurvivorsAre(m, |m|);
  }

  lemma CompactedRemapped(g: seq<BtfType>, m: Links, ids: Links, h: seq<BtfType>, out: seq<BtfType>)
    requires |g| == |m| && Forest(m) && Closed(g) && Numbered(m, ids, |m|)
    requires Compacted(g, m, h, |m|) && |h| == |Survivors(m, |m|)| && RemappedTo(m, ids, h, out, |h|)
    ensures IsResult(g, m, ids, out)
  {
  }
}
