/** When btf_dump can order types: no struct or union that is ordered on the way
    holds itself (eBPF_app/libbpf/src/btf_dump.c). */
module DumpLoops {
  import opened BtfTypes
  import opened DumpOrder

  /** Ordering x, directly or (ptr) through a pointer, comes to order the struct or
      union y: a pointer passes by those with a name. */
  ghost predicate Takes(g: seq<BtfType>, x: Id, ptr: bool, y: Id)
    requires CyclesThroughComposites(g) && x < |g|
    decreases Rank(g, x)
  {
    PartsInside(g, x);
    match g[x].info.kind
    case Array | Volatile | Const | Restrict | Typedef => Takes(g, Parts(g, x)[0], ptr, y)
    case Ptr => Takes(g, Parts(g, x)[0], true, y)
    case FuncProto => exists i :: 0 <= i < |Parts(g, x)| && Takes(g, Parts(g, x)[i], ptr, y)
    case Struct | Union => y == x && (!ptr || g[x].nameOff == 0)
    case _ => false
  }

  /** A member of the struct or union c comes to order d. */
  ghost predicate Contains(g: seq<BtfType>, c: Id, d: Id)
    requires CyclesThroughComposites(g) && c < |g|
  {
    PartsInside(g, c);
    IsComposite(g[c].info.kind) && exists i :: 0 <= i < |Parts(g, c)| && Takes(g, Parts(g, c)[i], false, d)
  }

  /** c contains d, in at most k + 1 steps. */
  ghost predicate Holds(g: seq<BtfType>, c: Id, d: Id, k: nat)
    requires CyclesThroughComposites(g)
    decreases k
  {
    c < |g| && (Contains(g, c, d) || (k > 0 && exists e :: Contains(g, c, e) && Holds(g, e, d, k - 1)))
  }

  ghost predicate HoldsSome(g: seq<BtfType>, c: Id, d: Id)
    requires CyclesThroughComposites(g)
  {
    exists k: nat :: Holds(g, c, d, k)
  }

  /** No struct or union that ordering x comes to holds itself. */
  ghost predicate Tame(g: seq<BtfType>, x: Id, ptr: bool)
    requires CyclesThroughComposites(g) && x < |g|
  {
    forall c: Id :: Takes(g, x, ptr, c) ==> TameFrom(g, c)
  }

  ghost predicate TameFrom(g: seq<BtfType>, c: Id)
    requires CyclesThroughComposites(g)
  {
    !HoldsSome(g, c, c) && forall d: Id :: HoldsSome(g, c, d) ==> !HoldsSome(g, d, d)
  }

  lemma {:induction false} HoldsFurther(g: seq<BtfType>, c: Id, d: Id, e: Id, k: nat) returns (j: nat)
    requires CyclesThroughComposites(g) && d < |g| && Holds(g, c, d, k) && Contains(g, d, e)
    ensures Holds(g, c, e, j)
    decreases k
  {
    hide Contains, CyclesThroughComposites;
    if Contains(g, c, d) {
      j := 1;
      assert Holds(g, d, e, 0);
    } else {
      var z :| Contains(g, c, z) && Holds(g, z, d, k - 1);
      var i := HoldsFurther(g, z, d, e, k - 1);
      j := i + 1;
    }
  }

  lemma HoldsMore(g: seq<BtfType>, c: Id, d: Id, e: Id)
    requires CyclesThroughComposites(g) && d < |g| && HoldsSome(g, c, d) && Contains(g, d, e)
    ensures HoldsSome(g, c, e)
  {
    hide CyclesThroughComposites, Contains;
    var k: nat :| Holds(g, c, d, k);
    var j := HoldsFurther(g, c, d, e, k);
  }

  lemma ContainedHolds(g: seq<BtfType>, c: Id, d: Id)
    requires CyclesThroughComposites(g) && c < |g| && Contains(g, c, d)
    ensures HoldsSome(g, c, d) && forall e: Id :: HoldsSome(g, d, e) ==> HoldsSome(g, c, e)
  {
    hide CyclesThroughComposites, Contains;
    assert Holds(g, c, d, 0);
    forall e: Id | HoldsSome(g, d, e)
      ensures HoldsSome(g, c, e)
    {
      var k: nat :| Holds(g, d, e, k);
      assert Holds(g, c, e, k + 1);
    }
  }

  /* Without such loops ordering ends, and does not fail. */

  /** From x, ordering enters at most k structs and unions one inside the other. */
  ghost predicate Bounded(g: seq<BtfType>, x: Id, ptr: bool, k: nat)
    requires CyclesThroughComposites(g) && x < |g|
    decreases k, Rank(g, x)
  {
    PartsInside(g, x);
    match g[x].info.kind
    case Array | Volatile | Const | Restrict | Typedef => Bounded(g, Parts(g, x)[0], ptr, k)
    case Ptr => Bounded(g, Parts(g, x)[0], true, k)
    case FuncProto => forall i :: 0 <= i < |Parts(g, x)| ==> Bounded(g, Parts(g, x)[i], ptr, k)
    case Struct | Union =>
      || (ptr && g[x].nameOff != 0)
      || (k > 0 && forall i :: 0 <= i < |Parts(g, x)| ==> Bounded(g, Parts(g, x)[i], false, k - 1))
    case _ => true
  }

  /** What ordering passes through without entering it. */
  predicate IsThrough(k: Kind) {
    k == Array || k == Volatile || k == Const || k == Restrict || k == Typedef || k == Ptr || k == FuncProto
  }

  lemma BoundedUnfold(g: seq<BtfType>, x: Id, ptr: bool, k: nat)
    requires CyclesThroughComposites(g) && x < |g|
    ensures WellFormed(g[x])
    ensures var kind, n := g[x].info.kind, |Parts(g, x)|;
            && (forall i :: 0 <= i < n ==> Parts(g, x)[i] < |g|)
            && !(IsThrough(kind) && IsComposite(kind))
            && (!IsComposite(kind) ==> forall i :: 0 <= i < n ==> Rank(g, Parts(g, x)[i]) < Rank(g, x))
            && (Bounded(g, x, ptr, k) <==>
                  if IsThrough(kind) then forall i :: 0 <= i < n ==> Bounded(g, Parts(g, x)[i], ptr || kind == Ptr, k)
                  else if IsComposite(kind) && !(ptr && g[x].nameOff != 0) then
                    k > 0 && forall i :: 0 <= i < n ==> Bounded(g, Parts(g, x)[i], false, k - 1)
                  else true)
  {
    PartsInside(g, x);
    hide CyclesThroughComposites, Closed, Rank, Refs;
  }

  lemma {:induction false} BoundedGrows(g: seq<BtfType>, x: Id, ptr: bool, k: nat, k': nat)
    requires CyclesThroughComposites(g) && x < |g| && Bounded(g, x, ptr, k) && k <= k'
    ensures Bounded(g, x, ptr, k')
    decreases k, Rank(g, x)
  {
    hide *;
    BoundedUnfold(g, x, ptr, k);
    BoundedUnfold(g, x, ptr, k');
    var kind, p := g[x].info.kind, ptr || g[x].info.kind == Ptr;
    var through, entered := IsThrough(kind), IsComposite(kind) && !(ptr && g[x].nameOff != 0);
    if through {
      forall i | 0 <= i < |Parts(g, x)|
        ensures Bounded(g, Parts(g, x)[i], p, k')
      {
        BoundedGrows(g, Parts(g, x)[i], p, k, k');
      }
    } else if entered {
      forall i | 0 <= i < |Parts(g, x)|
        ensures Bounded(g, Parts(g, x)[i], false, k' - 1)
      {
        BoundedGrows(g, Parts(g, x)[i], false, k - 1, k' - 1);
      }
    }
  }

  /** The structs and unions entered so far, each of which holds all that follow. */
  ghost predicate OnPath(g: seq<BtfType>, path: set<Id>, x: Id, ptr: bool)
    requires CyclesThroughComposites(g) && x < |g|
  {
    forall c, d: Id :: c in path && Takes(g, x, ptr, d) ==> c < |g| && HoldsSome(g, c, d)
  }

  lemma {:induction false} FewIds(path: set<Id>, n: nat)
    requires forall c :: c in path ==> c < n
    ensures |path| <= n
  {
    if n > 0 {
      FewIds(path - {n - 1}, n - 1);
    } else {
      assert path == {};
    }
  }

  /** What is taken through x is taken by x. */
  lemma PartTaken(g: seq<BtfType>, x: Id, ptr: bool, i: nat, y: Id)
    requires CyclesThroughComposites(g) && x < |g| && i < |Parts(g, x)| && Parts(g, x)[i] < |g|
    requires IsThrough(g[x].info.kind)
    requires Takes(g, Parts(g, x)[i], ptr || g[x].info.kind == Ptr, y)
    ensures Takes(g, x, ptr, y)
  {
    PartsInside(g, x);
    hide CyclesThroughComposites, Closed, Rank, Refs;
  }

  lemma PartTame(g: seq<BtfType>, x: Id, ptr: bool, path: set<Id>, i: nat)
    requires CyclesThroughComposites(g) && x < |g| && i < |Parts(g, x)| && Parts(g, x)[i] < |g|
    requires IsThrough(g[x].info.kind)
    requires Tame(g, x, ptr) && OnPath(g, path, x, ptr)
    ensures var p := ptr || g[x].info.kind == Ptr; Tame(g, Parts(g, x)[i], p) && OnPath(g, path, Parts(g, x)[i], p)
  {
    var part, p := Parts(g, x)[i], ptr || g[x].info.kind == Ptr;
    forall y: Id
      ensures Takes(g, part, p, y) ==> Takes(g, x, ptr, y)
    {
      hide *;
      if Takes(g, part, p, y) {
        PartTaken(g, x, ptr, i, y);
      }
    }
    Smaller(g, x, ptr, part, p, path);
  }

  lemma Smaller(g: seq<BtfType>, x: Id, ptr: bool, y: Id, p: bool, path: set<Id>)
    requires CyclesThroughComposites(g) && x < |g| && y < |g| && Tame(g, x, ptr) && OnPath(g, path, x, ptr)
    requires forall z: Id :: Takes(g, y, p, z) ==> Takes(g, x, ptr, z)
    ensures Tame(g, y, p) && OnPath(g, path, y, p)
  {
    hide CyclesThroughComposites, Takes, TameFrom, HoldsSome;
  }

  /** A path without repetition is no longer than there are types. */
  lemma {:induction false} TameIsBounded(g: seq<BtfType>, x: Id, ptr: bool, path: set<Id>, k: nat)
    requires CyclesThroughComposites(g) && x < |g| && Tame(g, x, ptr) && OnPath(g, path, x, ptr)
    requires (forall c :: c in path ==> c < |g|) && |path| + k == |g| + 1
    ensures Bounded(g, x, ptr, k)
    decreases k, Rank(g, x)
  {
    BoundedUnfold(g, x, ptr, k);
    var kind, entered := g[x].info.kind, IsComposite(g[x].info.kind) && !(ptr && g[x].nameOff != 0);
    if entered {
      FewIds(path, |g|);
      assert Takes(g, x, ptr, x);
    }
    hide CyclesThroughComposites, Rank, Parts, Bounded, Takes, TameFrom, HoldsSome;
    forall i | 0 <= i < |Parts(g, x)|
      ensures IsThrough(kind) ==> Bounded(g, Parts(g, x)[i], ptr || kind == Ptr, k)
      ensures entered ==> Bounded(g, Parts(g, x)[i], false, k - 1)
    {
      if IsThrough(kind) {
        PartTame(g, x, ptr, path, i);
        TameIsBounded(g, Parts(g, x)[i], ptr || kind == Ptr, path, k);
      } else if entered {
        OneDeeper(g, x, path, i);
        TameIsBounded(g, Parts(g, x)[i], false, path + {x}, k - 1);
      }
    }
  }

  lemma OneDeeper(g: seq<BtfType>, x: Id, path: set<Id>, i: nat)
    requires CyclesThroughComposites(g) && x < |g| && IsComposite(g[x].info.kind) && i < |Parts(g, x)| && TameFrom(g, x)
    requires forall c :: c in path ==> c < |g| && HoldsSome(g, c, x)
    ensures x !in path && |path + {x}| == |path| + 1 && Parts(g, x)[i] < |g|
    ensures Tame(g, Parts(g, x)[i], false) && OnPath(g, path + {x}, Parts(g, x)[i], false)
  {
    PartsInside(g, x);
    var part := Parts(g, x)[i];
    hide CyclesThroughComposites, Rank, Parts, Takes, HoldsSome;
    forall d: Id | Takes(g, part, false, d)
      ensures TameFrom(g, d) && forall c :: c in path + {x} ==> c < |g| && HoldsSome(g, c, d)
    {
      assert Contains(g, x, d);
      ContainedHolds(g, x, d);
      forall c | c in path
        ensures HoldsSome(g, c, d)
      {
        HoldsMore(g, c, x, d);
      }
    }
  }

  /** Nothing that is being ordered is entered again within k. */
  ghost predicate Outside(g: seq<BtfType>, order: seq<OrderState>, k: nat)
    requires CyclesThroughComposites(g)
  {
    forall y: Id ::
      y < |g| && y < |order| && order[y] == Ordering ==> IsComposite(g[y].info.kind) && !Bounded(g, y, false, k)
  }

  /** Every type but void is of a kind that is known. */
  predicate KnownKinds(g: seq<BtfType>) {
    forall x :: 0 < x < |g| ==> g[x].info.kind != Unkn
  }

  /** Ordering x will go well. */
  ghost predicate WillDo(g: seq<BtfType>, order: seq<OrderState>, x: Id, ptr: bool, k: nat)
    requires CyclesThroughComposites(g)
  {
    && x < |g| == |order| && KnownKinds(g) && order[0] == Ordered
    && Bounded(g, x, ptr, k) && Outside(g, order, k)
  }

  /** A struct or union in progress is met again only behind a pointer to its name. */
  lemma NotMetAgain(g: seq<BtfType>, order: seq<OrderState>, x: Id, ptr: bool, k: nat)
    requires CyclesThroughComposites(g) && WillDo(g, order, x, ptr, k) && order[x] == Ordering
    ensures IsComposite(g[x].info.kind) && ptr && g[x].nameOff != 0
  {
  }

  lemma KindWillDo(g: seq<BtfType>, order: seq<OrderState>, x: Id, ptr: bool, k: nat)
    requires CyclesThroughComposites(g) && WillDo(g, order, x, ptr, k) && order[x] == NotOrdered
    ensures g[x].info.kind != Unkn
  {
  }

  /** The types that x is printed with will do. */
  ghost predicate PartsWillDo(g: seq<BtfType>, order: seq<OrderState>, x: Id, ptr: bool, k: nat)
    requires CyclesThroughComposites(g) && x < |g|
  {
    PartsInside(g, x);
    forall i :: 0 <= i < |Parts(g, x)| ==> WillDo(g, order, Parts(g, x)[i], ptr, k)
  }

  /** What x goes on to without entering anything. */
  lemma PassedWillDo(g: seq<BtfType>, order: seq<OrderState>, x: Id, ptr: bool, k: nat)
    requires CyclesThroughComposites(g) && x < |g| && IsThrough(g[x].info.kind)
    ensures WillDo(g, order, x, ptr, k) ==> PartsWillDo(g, order, x, ptr || g[x].info.kind == Ptr, k)
  {
    BoundedUnfold(g, x, ptr, k);
    hide CyclesThroughComposites, Bounded, Outside, KnownKinds, Rank;
  }

  /** What will do still does when other types have been ordered. */
  lemma PartStillWillDo(g: seq<BtfType>, order: seq<OrderState>, done: seq<Id>, order': seq<OrderState>, done': seq<Id>,
                        x: Id, i: nat, ptr: bool, k: nat)
    requires CyclesThroughComposites(g) && x < |g| && i < |Parts(g, x)| && OrderedTo(g, order, done, order', done')
    ensures PartsWillDo(g, order, x, ptr, k) ==> WillDo(g, order', Parts(g, x)[i], ptr, k)
  {
    PartsInside(g, x);
    hide Bounded, Rank;
  }

  ghost function Depth(g: seq<BtfType>, x: Id, k: nat): (h: nat)
    requires CyclesThroughComposites(g) && x < |g| && Bounded(g, x, false, k)
    ensures h <= k && Bounded(g, x, false, h) && (h > 0 ==> !Bounded(g, x, false, h - 1))
  {
    if k > 0 && Bounded(g, x, false, k - 1) then Depth(g, x, k - 1) else k
  }

  lemma OutsideStill(g: seq<BtfType>, order: seq<OrderState>, x: Id, h: nat, k: nat)
    requires CyclesThroughComposites(g) && x < |g| == |order| && Outside(g, order, k) && h <= k
    requires IsComposite(g[x].info.kind) && !Bounded(g, x, false, h)
    ensures Outside(g, order[x := Ordering], h)
  {
    hide Bounded, CyclesThroughComposites;
    forall y: Id | y < |g| && Bounded(g, y, false, h)
      ensures Bounded(g, y, false, k)
    {
      BoundedGrows(g, y, false, h, k);
    }
  }

  /** Entering a struct or union: its members go less deep than it does. */
  lemma MembersWillDo(g: seq<BtfType>, order: seq<OrderState>, x: Id, ptr: bool, k: nat) returns (h: nat)
    requires CyclesThroughComposites(g) && x < |g| == |order| && IsComposite(g[x].info.kind)
    requires order[x] == NotOrdered && !(ptr && g[x].nameOff != 0)
    ensures WillDo(g, order, x, ptr, k) ==> PartsWillDo(g, order[x := Ordering], x, false, h)
  {
    hide Bounded, Outside, Rank, CyclesThroughComposites, Closed, WellFormed, KnownKinds, Parts;
    BoundedUnfold(g, x, ptr, k);
    BoundedUnfold(g, x, false, k);
    BoundedUnfold(g, x, false, 0);
    h := 0;
    if WillDo(g, order, x, ptr, k) {
      h := Depth(g, x, k) - 1;
      BoundedUnfold(g, x, false, h + 1);
      OutsideStill(g, order, x, h, k);
    }
  }

  /** With nothing in progress a type without loops will do. */
  lemma TameWillDo(g: seq<BtfType>, order: seq<OrderState>, x: Id)
    requires CyclesThroughComposites(g) && x < |g| == |order| && KnownKinds(g) && order[0] == Ordered
    requires Tame(g, x, false)
    requires forall y :: 0 <= y < |order| ==> order[y] != Ordering
    ensures WillDo(g, order, x, false, |g| + 1)
  {
    TameIsBounded(g, x, false, {}, |g| + 1);
  }

  /* What has been ordered has no such loops. */

  /** A prototype is used by value, and not through a pointer. */
  ghost predicate Bare(g: seq<BtfType>, x: Id)
    requires CyclesThroughComposites(g) && x < |g|
    decreases Rank(g, x)
  {
    PartsInside(g, x);
    match g[x].info.kind
    case Array | Volatile | Const | Restrict | Typedef => Bare(g, Parts(g, x)[0])
    case FuncProto => true
    case _ => false
  }

  /** No member of a struct or union is a function. */
  ghost predicate NoFunctionMembers(g: seq<BtfType>)
    requires CyclesThroughComposites(g)
  {
    forall c: Id, i: nat ::
      c < |g| && IsComposite(g[c].info.kind) && i < |Refs(g[c])| && Refs(g[c])[i] < |g| ==> !Bare(g, Refs(g[c])[i])
  }

  lemma PrefixFirst(g: seq<BtfType>, done: seq<Id>, i: nat)
    requires CyclesThroughComposites(g) && DepsFirst(g, done) && i <= |done|
    ensures DepsFirst(g, done[..i])
  {
    forall j | 0 <= j < i
      ensures done[..i][..j] == done[..j]
    {
    }
  }

  lemma {:induction false} TakenIsDone(g: seq<BtfType>, x: Id, ptr: bool, y: Id, done: seq<Id>)
    requires CyclesThroughComposites(g) && x < |g| && DepsFirst(g, done) && NeedsDone(g, x, ptr, done)
    requires Takes(g, x, ptr, y) && (ptr || !Bare(g, x))
    ensures y in done
    decreases Rank(g, x)
  {
    PartsInside(g, x);
    match g[x].info.kind
    case Array | Volatile | Const | Restrict => TakenIsDone(g, Parts(g, x)[0], ptr, y, done);
    case Ptr => TakenIsDone(g, Parts(g, x)[0], true, y, done);
    case Typedef =>
      if !ptr {
        assert Needs(g, x, false, x);
        var i :| 0 <= i < |done| && done[i] == x;
        assert MayFinish(g, x, done[..i]);
        assert forall z :: Needs(g, Parts(g, x)[0], false, z) ==> Dep(g, x, z);
      }
      TakenIsDone(g, Parts(g, x)[0], ptr, y, done);
    case FuncProto =>
      var i :| 0 <= i < |Parts(g, x)| && Takes(g, Parts(g, x)[i], ptr, y);
      TakenIsDone(g, Parts(g, x)[i], true, y, done);
    case Struct | Union =>
      assert Needs(g, x, ptr, x);
    case _ =>
  }

  /** What a finished struct or union contains is finished before it. */
  lemma ContainedFirst(g: seq<BtfType>, done: seq<Id>, i: nat, d: Id)
    requires CyclesThroughComposites(g) && DepsFirst(g, done) && NoFunctionMembers(g) && i < |done|
    requires Contains(g, done[i], d)
    ensures d in done[..i]
  {
    var c := done[i];
    PartsInside(g, c);
    var m :| 0 <= m < |Parts(g, c)| && Takes(g, Parts(g, c)[m], false, d);
    assert MayFinish(g, c, done[..i]);
    assert forall z :: Needs(g, Parts(g, c)[m], false, z) ==> Dep(g, c, z);
    PrefixFirst(g, done, i);
    TakenIsDone(g, Parts(g, c)[m], false, d, done[..i]);
  }

  lemma {:induction false} HeldFirst(g: seq<BtfType>, done: seq<Id>, i: nat, d: Id, k: nat)
    requires CyclesThroughComposites(g) && DepsFirst(g, done) && NoFunctionMembers(g) && i < |done|
    requires Holds(g, done[i], d, k)
    ensures d in done[..i]
    decreases k
  {
    if Contains(g, done[i], d) {
      ContainedFirst(g, done, i, d);
    } else {
      var e :| Contains(g, done[i], e) && Holds(g, e, d, k - 1);
      ContainedFirst(g, done, i, e);
      var j :| 0 <= j < i && done[j] == e;
      HeldFirst(g, done, j, d, k - 1);
    }
  }

  lemma DoneHoldsNotItself(g: seq<BtfType>, done: seq<Id>, c: Id)
    requires CyclesThroughComposites(g) && DepsFirst(g, done) && NoFunctionMembers(g) && c in done
    ensures !HoldsSome(g, c, c)
  {
    if k: nat :| Holds(g, c, c, k) {
      HeldFirst(g, done, First(done, c), c, k);
    }
  }

  /** A type that is ready comes to no loop. */
  lemma ReadyIsTame(g: seq<BtfType>, x: Id, done: seq<Id>)
    requires CyclesThroughComposites(g) && DepsFirst(g, done) && x < |g| && Ready(g, x, true, done)
    requires NoFunctionMembers(g) && !Bare(g, x)
    ensures Tame(g, x, false)
  {
    forall c: Id | Takes(g, x, false, c)
      ensures TameFrom(g, c)
    {
      TakenIsDone(g, x, false, c, done);
      DoneHoldsNotItself(g, done, c);
      forall d: Id | HoldsSome(g, c, d)
        ensures !HoldsSome(g, d, d)
      {
        var j: nat :| Holds(g, c, d, j);
        HeldFirst(g, done, First(done, c), d, j);
        DoneHoldsNotItself(g, done, d);
      }
    }
  }
}
