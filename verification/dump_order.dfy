/** The order in which btf_dump defines types (eBPF_app/libbpf/src/btf_dump.c). */
module DumpOrder {
  import opened BtfTypes

  datatype OrderState = NotOrdered | Ordering | Ordered

  /** Ranks that fall along every reference out of a type that is not a composite. */
  ghost predicate Layered(g: seq<BtfType>, rank: seq<nat>)
    requires Closed(g)
  {
    && |rank| == |g|
    && forall x, i ::
      0 <= x < |g| && !IsComposite(g[x].info.kind) && 0 <= i < |Refs(g[x])| ==> rank[Refs(g[x])[i]] < rank[x]
  }

  /** Every cycle of references passes through a struct or union. */
  ghost predicate CyclesThroughComposites(g: seq<BtfType>) {
    Closed(g) && exists rank :: Layered(g, rank)
  }

  ghost function Ranking(g: seq<BtfType>): (rank: seq<nat>)
    requires CyclesThroughComposites(g)
    ensures Layered(g, rank)
  {
    var rank :| Layered(g, rank);
    rank
  }

  ghost function Rank(g: seq<BtfType>, x: Id): nat
    requires CyclesThroughComposites(g) && x < |g|
  {
    Ranking(g)[x]
  }

  /** The type a modifier, pointer, typedef or array refers to. */
  function Target(t: BtfType): Id
    requires WellFormed(t)
  {
    if t.info.kind == Array then t.payload.elem else t.size
  }

  predicate IsModifier(k: Kind) {
    k == Volatile || k == Const || k == Restrict
  }

  lemma TargetInside(g: seq<BtfType>, x: Id)
    requires Closed(g) && x < |g|
    requires g[x].info.kind == Array || g[x].info.kind == Ptr || g[x].info.kind == Typedef || IsModifier(g[x].info.kind)
    ensures |Refs(g[x])| > 0 && Target(g[x]) == Refs(g[x])[0] < |g|
    ensures CyclesThroughComposites(g) ==> Rank(g, Target(g[x])) < Rank(g, x)
  {
  }

  lemma MemberInside(g: seq<BtfType>, x: Id, i: nat)
    requires Closed(g) && x < |g| && IsComposite(g[x].info.kind) && i < |g[x].payload.members|
    ensures |Refs(g[x])| == |g[x].payload.members| && g[x].payload.members[i].typ == Refs(g[x])[i] < |g|
  {
  }

  /** Kinds that C defines. */
  predicate IsDef(k: Kind) {
    IsComposite(k) || k == Enum || k == Fwd || k == Typedef
  }

  /** What printing a type in place, or defining it, goes on to. */
  ghost function Parts(g: seq<BtfType>, x: Id): seq<Id>
    requires x < |g| && WellFormed(g[x])
  {
    match g[x].info.kind
    case Ptr | Volatile | Const | Restrict | Array | Typedef => [Target(g[x])]
    case FuncProto | Struct | Union => Refs(g[x])
    case _ => []
  }

  lemma PartsInside(g: seq<BtfType>, x: Id)
    requires Closed(g) && x < |g|
    ensures forall i :: 0 <= i < |Parts(g, x)| ==> Parts(g, x)[i] < |g|
    ensures CyclesThroughComposites(g) && !IsComposite(g[x].info.kind) ==>
              forall i :: 0 <= i < |Parts(g, x)| ==> Rank(g, Parts(g, x)[i]) < Rank(g, x)
  {
    if g[x].info.kind == Array || g[x].info.kind == Ptr || g[x].info.kind == Typedef || IsModifier(g[x].info.kind) {
      TargetInside(g, x);
    }
  }

  /** y has to be complete where x is used, directly or (ptr) through a pointer: a
      pointer needs what it points to only where that has no name, and so is
      printed in place. */
  ghost predicate Needs(g: seq<BtfType>, x: Id, ptr: bool, y: Id)
    requires CyclesThroughComposites(g) && x < |g|
    decreases Rank(g, x)
  {
    PartsInside(g, x);
    match g[x].info.kind
    case Array | Volatile | Const | Restrict => Needs(g, Parts(g, x)[0], ptr, y)
    case Ptr => Needs(g, Parts(g, x)[0], true, y)
    case FuncProto => exists i :: 0 <= i < |Parts(g, x)| && Needs(g, Parts(g, x)[i], true, y)
    case Struct | Union => y == x && (!ptr || g[x].nameOff == 0)
    case Enum | Fwd => y == x
    case Typedef => if ptr then Needs(g, Parts(g, x)[0], true, y) else y == x
    case _ => false
  }

  /** y has to be defined before x: a member of x needs it, or x is a name for
      something that does. */
  ghost predicate Dep(g: seq<BtfType>, x: Id, y: Id)
    requires CyclesThroughComposites(g) && x < |g|
  {
    PartsInside(g, x);
    IsDef(g[x].info.kind) && exists i :: 0 <= i < |Parts(g, x)| && Needs(g, Parts(g, x)[i], false, y)
  }

  ghost predicate NeedsDone(g: seq<BtfType>, x: Id, ptr: bool, done: seq<Id>)
    requires CyclesThroughComposites(g) && x < |g|
  {
    forall y :: Needs(g, x, ptr, y) ==> y in done
  }

  /** Printing goes on through a type unless it is a struct or union with a name,
      or has nothing inside. */
  predicate Passes(t: BtfType) {
    match t.info.kind
    case Ptr | Volatile | Const | Restrict | Array | Typedef | FuncProto => true
    case Struct | Union => t.nameOff == 0
    case _ => false
  }

  /** From x, printing comes to an end within k steps, and all enums and forward
      declarations it comes to are done. */
  ghost predicate Grounded(g: seq<BtfType>, done: seq<Id>, x: Id, k: nat)
    requires Closed(g)
    decreases k
  {
    && x < |g|
    && if Passes(g[x]) then k > 0 && forall i :: 0 <= i < |Parts(g, x)| ==> Grounded(g, done, Parts(g, x)[i], k - 1)
       else g[x].info.kind == Enum || g[x].info.kind == Fwd ==> x in done
  }

  ghost predicate Settled(g: seq<BtfType>, done: seq<Id>, x: Id)
    requires Closed(g)
  {
    exists k: nat :: Grounded(g, done, x, k)
  }

  lemma {:induction false} GroundedGrows(g: seq<BtfType>, done: seq<Id>, done': seq<Id>, x: Id, k: nat, k': nat)
    requires Closed(g) && Grounded(g, done, x, k) && k <= k' && forall y :: y in done ==> y in done'
    ensures Grounded(g, done', x, k')
    decreases k
  {
    if Passes(g[x]) {
      forall i | 0 <= i < |Parts(g, x)|
        ensures Grounded(g, done', Parts(g, x)[i], k' - 1)
      {
        GroundedGrows(g, done, done', Parts(g, x)[i], k - 1, k' - 1);
      }
    }
  }

  /** One bound for several types. */
  lemma {:induction false} CommonBound(g: seq<BtfType>, done: seq<Id>, xs: seq<Id>) returns (k: nat)
    requires Closed(g) && forall i :: 0 <= i < |xs| ==> Settled(g, done, xs[i])
    ensures forall i :: 0 <= i < |xs| ==> Grounded(g, done, xs[i], k)
  {
    k := 0;
    for n := 0 to |xs|
      invariant forall i :: 0 <= i < n ==> Grounded(g, done, xs[i], k)
    {
      var j: nat :| Grounded(g, done, xs[n], j);
      var m := if j < k then k else j;
      forall i | 0 <= i <= n
        ensures Grounded(g, done, xs[i], m)
      {
        GroundedGrows(g, done, done, xs[i], if i < n then k else j, m);
      }
      k := m;
    }
  }

  /** All that x is printed with is settled. */
  ghost predicate Entered(g: seq<BtfType>, done: seq<Id>, x: Id)
    requires Closed(g) && x < |g|
  {
    forall i :: 0 <= i < |Parts(g, x)| ==> Settled(g, done, Parts(g, x)[i])
  }

  lemma EnteredSettles(g: seq<BtfType>, done: seq<Id>, x: Id)
    requires Closed(g) && x < |g| && Entered(g, done, x)
    requires g[x].info.kind == Enum || g[x].info.kind == Fwd ==> x in done
    ensures Settled(g, done, x)
  {
    var k := CommonBound(g, done, Parts(g, x));
    assert Grounded(g, done, x, k + 1);
  }

  /** A definition may be finished: what it depends on is done, and it is settled. */
  ghost predicate MayFinish(g: seq<BtfType>, x: Id, done: seq<Id>)
    requires CyclesThroughComposites(g) && x < |g|
  {
    && (forall y :: Dep(g, x, y) ==> y in done)
    && Entered(g, done, x)
  }

  /** Every definition comes after all it depends on. */
  ghost predicate DepsFirst(g: seq<BtfType>, done: seq<Id>)
    requires CyclesThroughComposites(g)
  {
    forall i :: 0 <= i < |done| ==> done[i] < |g| && IsDef(g[done[i]].info.kind) && MayFinish(g, done[i], done[..i])
  }

  /** A type has been ordered, as part of a strong link or of a weak one. */
  ghost predicate Ready(g: seq<BtfType>, x: Id, strong: bool, done: seq<Id>)
    requires CyclesThroughComposites(g) && x < |g|
  {
    Settled(g, done, x) && NeedsDone(g, x, true, done) && (strong ==> NeedsDone(g, x, false, done))
  }

  lemma ReadyGrows(g: seq<BtfType>, x: Id, strong: bool, done: seq<Id>, done': seq<Id>)
    requires CyclesThroughComposites(g) && x < |g| && Ready(g, x, strong, done) && done <= done'
    ensures Ready(g, x, strong, done')
  {
    var k: nat :| Grounded(g, done, x, k);
    GroundedGrows(g, done, done', x, k, k);
  }

  /** The states agree with the definitions that are done. */
  ghost predicate OrderInv(g: seq<BtfType>, order: seq<OrderState>, done: seq<Id>)
    requires CyclesThroughComposites(g)
  {
    && |order| == |g| && DepsFirst(g, done)
    && (forall x :: 0 <= x < |g| && IsDef(g[x].info.kind) && order[x] == Ordered ==> x in done)
    && (forall x :: 0 <= x < |g| && g[x].info.kind != Typedef && x in done ==> order[x] == Ordered)
    && (forall i, j :: 0 <= i < j < |done| && done[i] == done[j] ==> g[done[i]].info.kind == Typedef)
    && (forall x: Id :: x < |g| && order[x] == Ordered && g[x].info.kind == Ptr ==> Ready(g, x, true, done))
    && (forall x :: 0 <= x < |g| && order[x] == Ordered ==> !IsPath(g[x].info.kind))
  }

  /** Kinds that are only a way to other types, and never marked. */
  predicate IsPath(k: Kind) {
    k == Array || IsModifier(k) || k == FuncProto
  }

  /** What a done definition needs is done, also through a pointer. */
  lemma {:induction false} NeedsThroughPtr(g: seq<BtfType>, x: Id, done: seq<Id>)
    requires CyclesThroughComposites(g) && DepsFirst(g, done) && x < |g| && NeedsDone(g, x, false, done)
    ensures NeedsDone(g, x, true, done)
    decreases Rank(g, x)
  {
    PartsInside(g, x);
    match g[x].info.kind
    case Array | Volatile | Const | Restrict =>
      NeedsThroughPtr(g, Parts(g, x)[0], done);
    case Typedef =>
      assert Needs(g, x, false, x);
      var i :| 0 <= i < |done| && done[i] == x;
      assert forall y :: Needs(g, Parts(g, x)[0], false, y) ==> Dep(g, x, y);
      NeedsThroughPtr(g, Parts(g, x)[0], done);
    case _ =>
  }

  /** A done definition is ready. */
  lemma DoneIsReady(g: seq<BtfType>, x: Id, done: seq<Id>)
    requires CyclesThroughComposites(g) && DepsFirst(g, done) && x < |g| && IsDef(g[x].info.kind) && x in done
    ensures Ready(g, x, true, done)
  {
    NeedsThroughPtr(g, x, done);
    var i :| 0 <= i < |done| && done[i] == x;
    EnteredGrows(g, done[..i], done, x);
    EnteredSettles(g, done, x);
  }

  lemma EnteredGrows(g: seq<BtfType>, done: seq<Id>, done': seq<Id>, x: Id)
    requires Closed(g) && x < |g| && Entered(g, done, x) && done <= done'
    ensures Entered(g, done', x)
  {
    forall i | 0 <= i < |Parts(g, x)|
      ensures Settled(g, done', Parts(g, x)[i])
    {
      var k: nat :| Grounded(g, done, Parts(g, x)[i], k);
      GroundedGrows(g, done, done', Parts(g, x)[i], k, k);
    }
  }

  /** A definition whose dependencies are done is done. */
  lemma Finish(g: seq<BtfType>, order: seq<OrderState>, done: seq<Id>, x: Id)
    requires CyclesThroughComposites(g) && OrderInv(g, order, done) && x < |g| && IsDef(g[x].info.kind)
    requires g[x].info.kind != Typedef ==> order[x] != Ordered
    requires MayFinish(g, x, done)
    ensures OrderInv(g, order[x := Ordered], done + [x])
  {
    hide MayFinish, Ready;
    var done' := done + [x];
    forall i: nat | i < |done'|
      ensures done'[i] < |g| && IsDef(g[done'[i]].info.kind) && MayFinish(g, done'[i], done'[..i])
    {
      assert i < |done| ==> done'[..i] == done[..i];
      assert i == |done| ==> done'[..i] == done;
    }
    forall z: Id | z < |g| && Ready(g, z, true, done)
      ensures Ready(g, z, true, done')
    {
      ReadyGrows(g, z, true, done, done');
    }
  }

  /** Marks on anything else change nothing. */
  lemma MarkOther(g: seq<BtfType>, order: seq<OrderState>, done: seq<Id>, x: Id, s: OrderState)
    requires CyclesThroughComposites(g) && OrderInv(g, order, done) && x < |g|
    requires !IsDef(g[x].info.kind) || (order[x] != Ordered && s != Ordered)
    requires s == Ordered ==> !IsPath(g[x].info.kind)
    requires g[x].info.kind == Ptr && s == Ordered ==> Ready(g, x, true, done)
    ensures OrderInv(g, order[x := s], done)
  {
    hide MayFinish, Ready;
    assert !IsDef(g[x].info.kind) ==> x !in done;
  }

  /* Termination: composites not yet started. */

  ghost function Unstarted(g: seq<BtfType>, order: seq<OrderState>, n: nat): (c: nat)
    requires n <= |g| == |order|
  {
    if n == 0 then 0
    else Unstarted(g, order, n - 1) + if IsComposite(g[n - 1].info.kind) && order[n - 1] == NotOrdered then 1 else 0
  }

  ghost predicate Progress(a: seq<OrderState>, b: seq<OrderState>) {
    && |a| == |b|
    && (forall x :: 0 <= x < |a| && b[x] == NotOrdered ==> a[x] == NotOrdered)
    && (forall x :: 0 <= x < |a| ==> (a[x] == Ordering <==> b[x] == Ordering))
  }

  lemma {:induction false} UnstartedFalls(g: seq<BtfType>, a: seq<OrderState>, b: seq<OrderState>, n: nat)
    requires n <= |g| == |a| == |b|
    requires forall x :: 0 <= x < |a| && b[x] == NotOrdered ==> a[x] == NotOrdered
    ensures Unstarted(g, b, n) <= Unstarted(g, a, n)
    ensures (exists x :: 0 <= x < n && IsComposite(g[x].info.kind) && a[x] == NotOrdered && b[x] != NotOrdered) ==>
              Unstarted(g, b, n) < Unstarted(g, a, n)
  {
    if n > 0 {
      UnstartedFalls(g, a, b, n - 1);
    }
  }

  /* What the order means. */

  /** x cannot be complete without y, through arrays, modifiers, typedefs, composites
      and pointers to anonymous composites. */
  ghost predicate Embeds(g: seq<BtfType>, x: Id, y: Id, k: nat)
    requires CyclesThroughComposites(g)
    decreases k
  {
    x < |g| && k > 0 && (Dep(g, x, y) || exists z :: Dep(g, x, z) && Embeds(g, z, y, k - 1))
  }

  /** What is embedded is defined first. */
  lemma {:induction false} EmbeddedFirst(g: seq<BtfType>, done: seq<Id>, i: nat, y: Id, k: nat)
    requires CyclesThroughComposites(g) && DepsFirst(g, done) && i < |done| && Embeds(g, done[i], y, k)
    ensures y in done[..i]
    decreases k
  {
    assert MayFinish(g, done[i], done[..i]);
    if !Dep(g, done[i], y) {
      var z :| Dep(g, done[i], z) && Embeds(g, z, y, k - 1);
      var j :| 0 <= j < i && done[j] == z;
      EmbeddedFirst(g, done, j, y, k - 1);
    }
  }

  /** A type that embeds itself is never done. */
  lemma SelfEmbeddingFails(g: seq<BtfType>, done: seq<Id>, x: Id, k: nat)
    requires CyclesThroughComposites(g) && DepsFirst(g, done) && Embeds(g, x, x, k)
    ensures x !in done
  {
    if x in done {
      var i := First(done, x);
      EmbeddedFirst(g, done, i, x, k);
      assert false;
    }
  }

  ghost function First(s: seq<Id>, x: Id): (i: nat)
    requires x in s
    ensures i < |s| && s[i] == x && x !in s[..i]
  {
    if s[0] == x then 0
    else
      var i := 1 + First(s[1..], x);
      assert s[..i] == [s[0]] + s[1..][..i - 1];
      i
  }

  /** What is put into the queue: everything with a name, and enums and forward
      declarations that nothing refers to. */
  predicate IsQueued(g: seq<BtfType>, referenced: seq<bool>, x: Id)
    requires x < |g| == |referenced|
  {
    match g[x].info.kind
    case Struct | Union => g[x].nameOff != 0
    case Enum | Fwd => g[x].nameOff != 0 || !referenced[x]
    case Typedef => true
    case _ => false
  }

  /** The definitions that are queued, in order. */
  ghost function Queued(g: seq<BtfType>, referenced: seq<bool>, done: seq<Id>): (q: seq<Id>)
    requires |g| == |referenced| && forall i :: 0 <= i < |done| ==> done[i] < |g|
  {
    if done == [] then []
    else
      var last := done[|done| - 1];
      Queued(g, referenced, done[..|done| - 1]) + if IsQueued(g, referenced, last) then [last] else []
  }

  /** Each definition in the queue comes after every queued one that it embeds,
      and no struct, union or enum is in it twice. */
  lemma {:induction false} QueueOrder(g: seq<BtfType>, referenced: seq<bool>, order: seq<OrderState>, done: seq<Id>,
                                      i: nat, y: Id, k: nat)
    requires CyclesThroughComposites(g) && |referenced| == |g| && OrderInv(g, order, done)
    requires i < |Queued(g, referenced, done)| && Embeds(g, Queued(g, referenced, done)[i], y, k)
    requires y < |g| && IsQueued(g, referenced, y)
    ensures y in Queued(g, referenced, done)[..i]
  {
    var p := Place(g, referenced, done, i);
    EmbeddedFirst(g, done, p, y, k);
    QueuedIn(g, referenced, done[..p], y);
    QueuedPrefix(g, referenced, done, p);
  }

  /** Where the i-th queued definition is among all. */
  ghost function Place(g: seq<BtfType>, referenced: seq<bool>, done: seq<Id>, i: nat): (p: nat)
    requires |g| == |referenced| && (forall i :: 0 <= i < |done| ==> done[i] < |g|) && i < |Queued(g, referenced, done)|
    ensures p < |done| && done[p] == Queued(g, referenced, done)[i] && |Queued(g, referenced, done[..p])| == i
  {
    var front := done[..|done| - 1];
    if i < |Queued(g, referenced, front)| then
      var p := Place(g, referenced, front, i);
      assert done[..p] == front[..p];
      p
    else |done| - 1
  }

  lemma {:induction false} QueuedIn(g: seq<BtfType>, referenced: seq<bool>, done: seq<Id>, y: Id)
    requires |g| == |referenced| && forall i :: 0 <= i < |done| ==> done[i] < |g|
    requires y in done && IsQueued(g, referenced, y)
    ensures y in Queued(g, referenced, done)
  {
    var front := done[..|done| - 1];
    if y in front {
      QueuedIn(g, referenced, front, y);
    } else {
      assert done[|done| - 1] == y;
    }
  }

  lemma {:induction false} QueuedPrefix(g: seq<BtfType>, referenced: seq<bool>, done: seq<Id>, p: nat)
    requires |g| == |referenced| && (forall i :: 0 <= i < |done| ==> done[i] < |g|) && p <= |done|
    ensures |Queued(g, referenced, done[..p])| <= |Queued(g, referenced, done)|
    ensures Queued(g, referenced, done)[..|Queued(g, referenced, done[..p])|] == Queued(g, referenced, done[..p])
  {
    if p == |done| {
      assert done[..p] == done;
    } else {
      var front := done[..|done| - 1];
      QueuedPrefix(g, referenced, front, p);
      assert front[..p] == done[..p];
    }
  }

  lemma QueuedOnce(g: seq<BtfType>, referenced: seq<bool>, order: seq<OrderState>, done: seq<Id>, i: nat, j: nat)
    requires CyclesThroughComposites(g) && |referenced| == |g| && OrderInv(g, order, done)
    requires i < j < |Queued(g, referenced, done)| && Queued(g, referenced, done)[i] == Queued(g, referenced, done)[j]
    ensures Queued(g, referenced, done)[i] < |g| && g[Queued(g, referenced, done)[i]].info.kind == Typedef
  {
    var p, q := Place(g, referenced, done, i), Place(g, referenced, done, j);
    QueuedGrows(g, referenced, done, q, p);
  }

  lemma QueuedGrows(g: seq<BtfType>, referenced: seq<bool>, done: seq<Id>, p: nat, q: nat)
    requires |g| == |referenced| && (forall i :: 0 <= i < |done| ==> done[i] < |g|) && p <= |done| && q <= |done|
    ensures p <= q ==> |Queued(g, referenced, done[..p])| <= |Queued(g, referenced, done[..q])|
  {
    if p <= q {
      QueuedPrefix(g, referenced, done[..q], p);
      assert done[..q][..p] == done[..p];
    }
  }

  /** The whole state of the ordering: the queue of this dump continues those of
      the dumps before. */
  ghost predicate Orders(g: seq<BtfType>, referenced: seq<bool>, order: seq<OrderState>, done: seq<Id>,
                         earlier: seq<Id>, queue: seq<Id>) {
    && CyclesThroughComposites(g) && |referenced| == |g|
    && OrderInv(g, order, done) && earlier + queue == Queued(g, referenced, done)
  }

  lemma OrderSizes(g: seq<BtfType>, referenced: seq<bool>, order: seq<OrderState>, done: seq<Id>, earlier: seq<Id>,
                   queue: seq<Id>)
    requires Orders(g, referenced, order, done, earlier, queue)
    ensures CyclesThroughComposites(g) && |g| == |referenced| == |order|
  {
  }

  /** Ordering a type went well: states only moved on, and if the link to it is
      strong, what it is by value is done. */
  ghost predicate OrderedTo(g: seq<BtfType>, order: seq<OrderState>, done: seq<Id>, order': seq<OrderState>,
                            done': seq<Id>) {
    Progress(order, order') && done <= done'
  }

  lemma OrderedToTrans(g: seq<BtfType>, o1: seq<OrderState>, d1: seq<Id>, o2: seq<OrderState>, d2: seq<Id>,
                       o3: seq<OrderState>, d3: seq<Id>)
    requires OrderedTo(g, o1, d1, o2, d2) && OrderedTo(g, o2, d2, o3, d3)
    ensures OrderedTo(g, o1, d1, o3, d3)
  {
  }

  /** An ordered type is ready. */
  lemma OrderedIsReady(g: seq<BtfType>, order: seq<OrderState>, done: seq<Id>, x: Id)
    requires CyclesThroughComposites(g) && OrderInv(g, order, done) && x < |g| && order[x] == Ordered
    ensures Ready(g, x, true, done)
  {
    if IsDef(g[x].info.kind) {
      DoneIsReady(g, x, done);
    } else if g[x].info.kind != Ptr {
      LeafReady(g, x, done);
    }
  }

  /** What is no definition and no way to one is ready. */
  lemma LeafReady(g: seq<BtfType>, x: Id, done: seq<Id>)
    requires CyclesThroughComposites(g) && x < |g|
    requires !IsDef(g[x].info.kind) && g[x].info.kind != Ptr && !IsPath(g[x].info.kind)
    ensures Ready(g, x, true, done)
  {
    assert Grounded(g, done, x, 0);
  }

  /** A pointer to a struct or union with a name needs nothing. */
  lemma NameReady(g: seq<BtfType>, x: Id, done: seq<Id>)
    requires CyclesThroughComposites(g) && x < |g| && IsComposite(g[x].info.kind) && g[x].nameOff != 0
    ensures Ready(g, x, false, done)
  {
    assert Grounded(g, done, x, 0);
  }

  lemma DoneInside(g: seq<BtfType>, order: seq<OrderState>, done: seq<Id>)
    requires CyclesThroughComposites(g) && OrderInv(g, order, done)
    ensures DepsFirst(g, done) && |order| == |g| && forall i :: 0 <= i < |done| ==> done[i] < |g|
  {
  }

  lemma QueuedMore(g: seq<BtfType>, referenced: seq<bool>, done: seq<Id>, x: Id)
    requires |g| == |referenced| && x < |g| && forall i :: 0 <= i < |done| ==> done[i] < |g|
    ensures Queued(g, referenced, done + [x]) ==
              if IsQueued(g, referenced, x) then Queued(g, referenced, done) + [x] else Queued(g, referenced, done)
  {
    assert (done + [x])[..|done|] == done;
  }

  /** A finished definition joins the queue if it has to be printed. */
  lemma FinishOrders(g: seq<BtfType>, referenced: seq<bool>, order: seq<OrderState>, done: seq<Id>, earlier: seq<Id>,
                     queue: seq<Id>, x: Id)
    requires Orders(g, referenced, order, done, earlier, queue) && x < |g| && IsDef(g[x].info.kind)
    requires g[x].info.kind != Typedef ==> order[x] != Ordered
    requires MayFinish(g, x, done)
    ensures Orders(g, referenced, order[x := Ordered], done + [x], earlier,
                   if IsQueued(g, referenced, x) then queue + [x] else queue)
    ensures done <= done + [x] && Ready(g, x, true, done + [x])
  {
    hide OrderInv, Queued, MayFinish, DepsFirst, Ready, IsQueued, CyclesThroughComposites;
    DoneInside(g, order, done);
    Finish(g, order, done, x);
    DoneInside(g, order[x := Ordered], done + [x]);
    QueuedMore(g, referenced, done, x);
    DoneIsReady(g, x, done + [x]);
    assert earlier + (queue + [x]) == earlier + queue + [x];
  }

  lemma MarkOrders(g: seq<BtfType>, referenced: seq<bool>, order: seq<OrderState>, done: seq<Id>, earlier: seq<Id>,
                   queue: seq<Id>, x: Id, s: OrderState)
    requires Orders(g, referenced, order, done, earlier, queue) && x < |g|
    requires !IsDef(g[x].info.kind) || (order[x] != Ordered && s != Ordered)
    requires s == Ordered ==> !IsPath(g[x].info.kind)
    requires g[x].info.kind == Ptr && s == Ordered ==> Ready(g, x, true, done)
    ensures Orders(g, referenced, order[x := s], done, earlier, queue)
  {
    MarkOther(g, order, done, x, s);
  }

  /** A modifier, array or pointer is ready once what it is of is; a pointer has
      only weak links, and a typedef in a weak link is like a modifier. */
  lemma ReadyThrough(g: seq<BtfType>, x: Id, strong: bool, done: seq<Id>)
    requires CyclesThroughComposites(g) && x < |g|
    requires g[x].info.kind == Array || IsModifier(g[x].info.kind) || g[x].info.kind == Ptr || g[x].info.kind == Typedef
    requires Target(g[x]) < |g| && Ready(g, Target(g[x]), strong, done)
    ensures Ready(g, x,
                  if g[x].info.kind == Ptr then true else if g[x].info.kind == Typedef then false else strong, done)
  {
    var k: nat :| Grounded(g, done, Target(g[x]), k);
    assert Parts(g, x) == [Target(g[x])];
    assert Grounded(g, done, x, k + 1);
  }

  /** A typedef or an enum may be finished. */
  lemma LeafFinishes(g: seq<BtfType>, x: Id, done: seq<Id>)
    requires CyclesThroughComposites(g) && x < |g| && !IsComposite(g[x].info.kind) && IsDef(g[x].info.kind)
    requires g[x].info.kind == Typedef ==> Target(g[x]) < |g| && Ready(g, Target(g[x]), true, done)
    ensures MayFinish(g, x, done)
  {
    if g[x].info.kind == Typedef {
      assert Parts(g, x) == [Target(g[x])];
    }
  }

  lemma MarkProgress(g: seq<BtfType>, order: seq<OrderState>, done: seq<Id>, later: seq<OrderState>, done': seq<Id>,
                     x: Id)
    requires x < |order| && order[x] == NotOrdered && OrderedTo(g, order, done, later, done')
    ensures later[x] != Ordering && OrderedTo(g, order, done, later[x := Ordered], done')
    ensures OrderedTo(g, order, done, later[x := Ordered], done' + [x])
  {
  }

  lemma FinishProgress(g: seq<BtfType>, order: seq<OrderState>, done: seq<Id>, later: seq<OrderState>, done': seq<Id>,
                       x: Id)
    requires x < |order| && order[x] == NotOrdered && OrderedTo(g, order[x := Ordering], done, later, done')
    ensures later[x] == Ordering && OrderedTo(g, order, done, later[x := Ordered], done' + [x])
  {
    assert order[x := Ordering][x] == Ordering;
  }

  lemma Started(g: seq<BtfType>, order: seq<OrderState>, done: seq<Id>)
    ensures OrderedTo(g, order, done, order, done)
  {
  }

  /** Starting a composite leaves fewer to start. */
  lemma {:induction false} StartFalls(g: seq<BtfType>, order: seq<OrderState>, done: seq<Id>, later: seq<OrderState>,
                                      done': seq<Id>, x: Id)
    requires x < |g| == |order| && IsComposite(g[x].info.kind) && order[x] == NotOrdered
    requires OrderedTo(g, order[x := Ordering], done, later, done')
    ensures |later| == |g| && Unstarted(g, later, |g|) < Unstarted(g, order, |g|)
  {
    assert order[x := Ordering][x] == Ordering;
    UnstartedFalls(g, order, later, |g|);
    assert later[x] != NotOrdered;
  }

  lemma ProgressFalls(g: seq<BtfType>, order: seq<OrderState>, done: seq<Id>, later: seq<OrderState>, done': seq<Id>)
    requires |g| == |order| && OrderedTo(g, order, done, later, done')
    ensures |later| == |g| && Unstarted(g, later, |g|) <= Unstarted(g, order, |g|)
  {
    UnstartedFalls(g, order, later, |g|);
  }

  lemma MembersAll(g: seq<BtfType>, x: Id)
    requires Closed(g) && x < |g| && IsComposite(g[x].info.kind)
    ensures |Refs(g[x])| == |g[x].payload.members| == g[x].info.vlen
    ensures forall j :: 0 <= j < |Refs(g[x])| ==> Refs(g[x])[j] < |g|
  {
  }

  /** The first n types that x is printed with are ready. */
  ghost predicate PartsReady(g: seq<BtfType>, x: Id, n: nat, strong: bool, done: seq<Id>)
    requires CyclesThroughComposites(g) && x < |g|
  {
    PartsInside(g, x);
    forall i :: 0 <= i < n && i < |Parts(g, x)| ==> Ready(g, Parts(g, x)[i], strong, done)
  }

  lemma NoPartsYet(g: seq<BtfType>, x: Id, strong: bool, done: seq<Id>)
    requires CyclesThroughComposites(g) && x < |g|
    ensures PartsReady(g, x, 0, strong, done)
  {
  }

  lemma OneMorePart(g: seq<BtfType>, x: Id, n: nat, strong: bool, order: seq<OrderState>, done: seq<Id>,
                    order': seq<OrderState>, done': seq<Id>)
    requires CyclesThroughComposites(g) && x < |g| && n < |Parts(g, x)| && Parts(g, x)[n] < |g|
    requires PartsReady(g, x, n, strong, done) && OrderedTo(g, order, done, order', done')
    requires Ready(g, Parts(g, x)[n], strong, done')
    ensures PartsReady(g, x, n + 1, strong, done')
  {
    hide Ready;
    PartsInside(g, x);
    forall i | 0 <= i < n
      ensures Ready(g, Parts(g, x)[i], strong, done')
    {
      ReadyGrows(g, Parts(g, x)[i], strong, done, done');
    }
  }

  /** A composite may be finished once its members are ready by value. */
  lemma CompositeFinishes(g: seq<BtfType>, x: Id, done: seq<Id>)
    requires CyclesThroughComposites(g) && x < |g| && IsComposite(g[x].info.kind)
    requires PartsReady(g, x, |Parts(g, x)|, true, done)
    ensures MayFinish(g, x, done)
  {
    PartsInside(g, x);
    forall y | Dep(g, x, y)
      ensures y in done
    {
      var i :| 0 <= i < |Parts(g, x)| && Needs(g, Parts(g, x)[i], false, y);
      assert Ready(g, Parts(g, x)[i], true, done);
    }
  }

  /** A prototype is ready once its result and parameters are. */
  lemma PrototypeReady(g: seq<BtfType>, x: Id, done: seq<Id>)
    requires CyclesThroughComposites(g) && x < |g| && g[x].info.kind == FuncProto
    requires PartsReady(g, x, |Parts(g, x)|, false, done)
    ensures Ready(g, x, true, done)
  {
    PartsInside(g, x);
    assert forall i :: 0 <= i < |Parts(g, x)| ==> Ready(g, Parts(g, x)[i], false, done);
    EnteredSettles(g, done, x);
  }
}
