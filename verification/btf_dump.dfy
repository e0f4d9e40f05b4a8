/** btf_dump (eBPF_app/libbpf/src/btf_dump.c): ordering and printing types as C. */
module BtfDump {
  import opened BtfTypes
  import opened DumpEmit
  import opened DumpLoops
  import opened DumpOrder
  import BtfStrings

  datatype Ret = Strong | Weak | Failed

  /** __builtin_va_list, which every compiler has. */
  predicate IsBlacklisted(g: seq<BtfType>, strs: seq<char>, id: Id): (b: bool)
    requires id < |g|
    ensures b <==> id in Builtins(g, strs)
  {
    g[id].nameOff != 0 && BtfStrings.Text(strs, g[id].nameOff) == "__builtin_va_list"
  }

  ghost function Builtins(g: seq<BtfType>, strs: seq<char>): set<Id> {
    set x: Id | x < |g| && g[x].nameOff != 0 && BtfStrings.Text(strs, g[x].nameOff) == "__builtin_va_list"
  }

  class Dump {
    const g: seq<BtfType>
    const strs: seq<char>
    var order: seq<OrderState>        // type_states, by field
    var emit: seq<EmitState>
    var fwdEmitted: seq<bool>
    var referenced: seq<bool>
    var queue: seq<Id>                // emit_queue
    var trace: seq<Event>             // what has been printed
    var warned: bool                  // of an anonymous struct or union in a loop
    ghost var done: seq<Id>           // every definition in the order of finishing
    ghost var earlier: seq<Id>        // the queues of the dumps before

    /** btf_dump__new: the states are set up by the first dump. */
    constructor (g: seq<BtfType>, strs: seq<char>)
      ensures this.g == g && this.strs == strs && trace == [] && !warned
      ensures CyclesThroughComposites(g) ==> Valid()
    {
      this.g, this.strs := g, strs;
      order, emit, fwdEmitted, referenced := [], [], [], [];
      queue, trace, warned := [], [], false;
      done, earlier := [], [];
    }

    /** Printing is consistent so far. */
    ghost predicate Emits()
      reads this`emit, this`fwdEmitted, this`trace
    {
      Printing() && Noted(emit, fwdEmitted, trace)
    }

    /** The same, while the declaration just printed may not have been noted. */
    ghost predicate Printing()
      reads this`emit, this`fwdEmitted, this`trace
    {
      CyclesThroughComposites(g) && EmitInv(g, Builtins(g, strs), emit, fwdEmitted, trace)
    }

    /** Every name that a type reaches is declared or is the one being defined. */
    ghost predicate Reached(id: Id, cont: Id)
      requires Closed(g)
      reads this`trace
    {
      Covered(g, Builtins(g, strs), trace, id, cont)
    }

    /** A definition is ordered, and queued if it has to be printed. */
    method Define(id: Id)
      requires Orders(g, referenced, order, done, earlier, queue) && id < |g| && IsDef(g[id].info.kind)
      requires g[id].info.kind != Typedef ==> order[id] != Ordered
      requires MayFinish(g, id, done)
      modifies this`order, this`queue, this`done
      ensures Orders(g, referenced, order, done, earlier, queue) && Ready(g, id, true, done)
      ensures order == old(order)[id := Ordered] && done == old(done) + [id]
      ensures queue == if IsQueued(g, referenced, id) then old(queue) + [id] else old(queue)
    {
      hide Orders, Ready, MayFinish, IsQueued, CyclesThroughComposites;
      OrderSizes(g, referenced, order, done, earlier, queue);
      FinishOrders(g, referenced, order, done, earlier, queue, id);
      if IsQueued(g, referenced, id) {
        queue := queue + [id];
      }
      order := order[id := Ordered];
      done := done + [id];
    }

    /** btf_dump_order_type. */
    method OrderType(id: Id, throughPtr: bool, ghost k: nat) returns (ret: Ret)
      requires Orders(g, referenced, order, done, earlier, queue) && id < |g|
      modifies this`order, this`queue, this`done
      ensures |order| == |g|
      ensures ret != Failed ==> Orders(g, referenced, order, done, earlier, queue)
      ensures ret != Failed ==> OrderedTo(g, old(order), old(done), order, done)
      ensures ret != Failed ==> Ready(g, id, ret == Strong || !throughPtr, done)
      ensures WillDo(g, old(order), id, throughPtr, k) ==> ret != Failed
      decreases Unstarted(g, order, |g|), Rank(g, id), 2
    {
      assert |order| == |g| && CyclesThroughComposites(g) && Closed(g);
      hide Orders, OrderInv, Queued, Unstarted, Ready, MayFinish, Needs, Grounded, Dep, Progress, OrderedTo, WillDo,
           CyclesThroughComposites;
      var t := g[id];
      Started(g, order, done);
      if order[id] == Ordered {
        OrderedIsReady(g, order, done, id);
        WeakerReady(g, id, done);
        return Strong;
      }
      if order[id] == Ordering {
        if IsComposite(t.info.kind) && throughPtr && t.nameOff != 0 {
          NameReady(g, id, done);
          return Weak;
        }
        if WillDo(g, order, id, throughPtr, k) {
          NotMetAgain(g, order, id, throughPtr, k);
        }
        return Failed;
      }
      match t.info.kind
      case Int =>
        OrderLeaf(id);
        return Weak;
      case Ptr =>
        ret := OrderPtr(id, throughPtr, k);
        if ret != Failed {
          WeakerReady(g, id, done);
        }
      case Array | Volatile | Const | Restrict =>
        ret := OrderTarget(id, throughPtr, k);
      case Struct | Union =>
        if throughPtr && t.nameOff != 0 {
          NameReady(g, id, done);
          return Weak;
        }
        ret := OrderComposite(id, throughPtr, k);
      case Enum | Fwd =>
        LeafFinishes(g, id, done);
        MarkProgress(g, order, done, order, done, id);
        Define(id);
        return Strong;
      case Typedef =>
        ret := OrderTypedef(id, throughPtr, k);
      case FuncProto =>
        ret := OrderFuncProto(id, throughPtr, k);
      case Func | Var | DataSec =>
        OrderLeaf(id);
        return Weak;
      case _ =>
        if WillDo(g, order, id, throughPtr, k) {
          KindWillDo(g, order, id, throughPtr, k);
        }
        return Failed;
    }

    /** A type that needs no ordering. */
    method OrderLeaf(id: Id)
      requires Orders(g, referenced, order, done, earlier, queue) && id < |g| && order[id] == NotOrdered
      requires !IsDef(g[id].info.kind) && g[id].info.kind != Ptr && !IsPath(g[id].info.kind)
      modifies this`order
      ensures Orders(g, referenced, order, done, earlier, queue) && OrderedTo(g, old(order), done, order, done)
      ensures |order| == |g| && forall strong :: Ready(g, id, strong, done)
    {
      assert |order| == |g| && CyclesThroughComposites(g) && Closed(g);
      hide Orders, OrderInv, Queued, Unstarted, Ready, MayFinish, Needs, Grounded, Dep, Progress, OrderedTo, WillDo,
           CyclesThroughComposites;
      Started(g, order, done);
      MarkOrders(g, referenced, order, done, earlier, queue, id, Ordered);
      MarkProgress(g, order, done, order, done, id);
      LeafReady(g, id, done);
      WeakerReady(g, id, done);
      order := order[id := Ordered];
    }

    /** A pointer makes the links behind it weak, and is done with for good. */
    method OrderPtr(id: Id, ghost ptr: bool, ghost k: nat) returns (ret: Ret)
      requires Orders(g, referenced, order, done, earlier, queue) && id < |g| && g[id].info.kind == Ptr
      requires order[id] == NotOrdered
      modifies this`order, this`queue, this`done
      ensures |order| == |g|
      ensures ret != Failed ==> Orders(g, referenced, order, done, earlier, queue)
      ensures ret != Failed ==> OrderedTo(g, old(order), old(done), order, done) && Ready(g, id, true, done)
      ensures WillDo(g, old(order), id, ptr, k) ==> ret != Failed
      decreases Unstarted(g, order, |g|), Rank(g, id), 1
    {
      hide *;
      OrderSizes(g, referenced, order, done, earlier, queue);
      PtrFalls(g, id);
      TargetWillDo(g, order, id, ptr, k);
      ret := OrderType(g[id].size, true, k);
      if ret != Failed {
        ReadyThrough(g, id, ret == Strong, done);
        MarkOrders(g, referenced, order, done, earlier, queue, id, Ordered);
        MarkProgress(g, old(order), old(done), order, done, id);
      }
      order := order[id := Ordered];
    }

    /** An array or modifier is ordered as what it is of. */
    method OrderTarget(id: Id, throughPtr: bool, ghost k: nat) returns (ret: Ret)
      requires Orders(g, referenced, order, done, earlier, queue) && id < |g| && order[id] == NotOrdered
      requires g[id].info.kind == Array || IsModifier(g[id].info.kind)
      modifies this`order, this`queue, this`done
      ensures |order| == |g|
      ensures ret != Failed ==> Orders(g, referenced, order, done, earlier, queue)
      ensures ret != Failed ==> OrderedTo(g, old(order), old(done), order, done)
      ensures ret != Failed ==> Ready(g, id, ret == Strong || !throughPtr, done)
      ensures WillDo(g, old(order), id, throughPtr, k) ==> ret != Failed
      decreases Unstarted(g, order, |g|), Rank(g, id), 1
    {
      assert |order| == |g| && CyclesThroughComposites(g) && Closed(g);
      hide Orders, OrderInv, Queued, Unstarted, Ready, MayFinish, Needs, Grounded, Dep, Progress, OrderedTo, WillDo,
           PartsWillDo, CyclesThroughComposites;
      TargetInside(g, id);
      TargetWillDo(g, order, id, throughPtr, k);
      ret := OrderType(if g[id].info.kind == Array then g[id].payload.elem else g[id].size, throughPtr, k);
      if ret != Failed {
        ReadyThrough(g, id, ret == Strong || !throughPtr, done);
      }
    }

    /** A typedef is a definition, unless it is only pointed at and so is what it names. */
    method OrderTypedef(id: Id, throughPtr: bool, ghost k: nat) returns (ret: Ret)
      requires Orders(g, referenced, order, done, earlier, queue) && id < |g| && g[id].info.kind == Typedef
      requires order[id] == NotOrdered
      modifies this`order, this`queue, this`done
      ensures |order| == |g|
      ensures ret != Failed ==> Orders(g, referenced, order, done, earlier, queue)
      ensures ret != Failed ==> OrderedTo(g, old(order), old(done), order, done)
      ensures ret != Failed ==> Ready(g, id, ret == Strong || !throughPtr, done)
      ensures WillDo(g, old(order), id, throughPtr, k) ==> ret != Failed
      decreases Unstarted(g, order, |g|), Rank(g, id), 1
    {
      assert |order| == |g| && CyclesThroughComposites(g) && Closed(g);
      hide Orders, OrderInv, Queued, Unstarted, Ready, MayFinish, Needs, Grounded, Dep, Progress, OrderedTo, WillDo,
           PartsWillDo, CyclesThroughComposites;
      TargetInside(g, id);
      TargetWillDo(g, order, id, throughPtr, k);
      ret := OrderType(g[id].size, throughPtr, k);
      if ret == Failed {
        return;
      }
      if throughPtr && ret == Weak {
        ReadyThrough(g, id, false, done);
        return;
      }
      LeafFinishes(g, id, done);
      MarkProgress(g, old(order), old(done), order, done, id);
      Define(id);
      return Strong;
    }

    /** The members of a composite come first, each by value. */
    method OrderComposite(id: Id, ghost ptr: bool, ghost k: nat) returns (ret: Ret)
      requires Orders(g, referenced, order, done, earlier, queue) && id < |g|
      requires IsComposite(g[id].info.kind) && order[id] == NotOrdered && !(ptr && g[id].nameOff != 0)
      modifies this`order, this`queue, this`done
      ensures |order| == |g|
      ensures ret != Weak
      ensures ret != Failed ==> Orders(g, referenced, order, done, earlier, queue)
      ensures ret != Failed ==> OrderedTo(g, old(order), old(done), order, done) && Ready(g, id, true, done)
      ensures WillDo(g, old(order), id, ptr, k) ==> ret != Failed
      decreases Unstarted(g, order, |g|), Rank(g, id), 1
    {
      assert |order| == |g| && CyclesThroughComposites(g) && Closed(g);
      hide OrderInv, Queued, Unstarted, Ready, MayFinish, Needs, Grounded, Dep, Progress, OrderedTo, WillDo,
           PartsWillDo, CyclesThroughComposites;
      ghost var h := MembersWillDo(g, order, id, ptr, k);
      MarkOrders(g, referenced, order, done, earlier, queue, id, Ordering);
      order := order[id := Ordering];
      ret := OrderMembers(id, old(order), old(done), h);
      if ret == Failed {
        return;
      }
      FinishProgress(g, old(order), old(done), order, done, id);
      Define(id);
    }

    method OrderMembers(id: Id, ghost was: seq<OrderState>, ghost had: seq<Id>, ghost k: nat) returns (ret: Ret)
      requires Orders(g, referenced, order, done, earlier, queue) && id < |g| == |was|
      requires IsComposite(g[id].info.kind) && was[id] == NotOrdered && order == was[id := Ordering] && done == had
      modifies this`order, this`queue, this`done
      ensures ret != Weak && |order| == |g|
      ensures ret == Strong ==> Orders(g, referenced, order, done, earlier, queue)
      ensures ret == Strong ==> OrderedTo(g, old(order), old(done), order, done)
      ensures ret == Strong ==> MayFinish(g, id, done)
      ensures PartsWillDo(g, old(order), id, false, k) ==> ret != Failed
      decreases Unstarted(g, was, |g|), Rank(g, id), 0
    {
      assert |order| == |g| && CyclesThroughComposites(g) && Closed(g);
      hide OrderInv, Queued, Unstarted, Ready, MayFinish, Needs, Grounded, Dep, Progress, OrderedTo, WillDo,
           PartsWillDo, CyclesThroughComposites, PartsReady;
      ghost var start := order;
      Started(g, order, done);
      MembersAll(g, id);
      NoPartsYet(g, id, true, done);
      for i := 0 to g[id].info.vlen
        invariant Orders(g, referenced, order, done, earlier, queue) && OrderedTo(g, start, had, order, done)
        invariant PartsReady(g, id, i, true, done)
      {
        MemberInside(g, id, i);
        StartFalls(g, was, had, order, done, id);
        PartStillWillDo(g, start, had, order, done, id, i, false, k);
        ghost var order0, done0 := order, done;
        var err := OrderType(g[id].payload.members[i].typ, false, k);
        if err == Failed {
          return Failed;
        }
        OrderedToTrans(g, start, had, order0, done0, order, done);
        OneMorePart(g, id, i, true, order0, done0, order, done);
      }
      CompositeFinishes(g, id, done);
      return Strong;
    }

    /** A prototype is part of a strong link if its result or a parameter is. */
    method OrderFuncProto(id: Id, throughPtr: bool, ghost k: nat) returns (ret: Ret)
      requires Orders(g, referenced, order, done, earlier, queue) && id < |g| && g[id].info.kind == FuncProto
      modifies this`order, this`queue, this`done
      ensures |order| == |g|
      ensures ret != Failed ==> Orders(g, referenced, order, done, earlier, queue)
      ensures ret != Failed ==> OrderedTo(g, old(order), old(done), order, done)
      ensures ret != Failed ==> Ready(g, id, ret == Strong || !throughPtr, done)
      ensures WillDo(g, old(order), id, throughPtr, k) ==> ret != Failed
      decreases Unstarted(g, order, |g|), Rank(g, id), 0
    {
      hide *;
      OrderSizes(g, referenced, order, done, earlier, queue);
      ResultFalls(g, id);
      var t := g[id];
      NoPartsYet(g, id, false, done);
      Started(g, order, done);
      PassedWillDo(g, order, id, throughPtr, k);
      PartStillWillDo(g, order, done, order, done, id, 0, throughPtr, k);
      var err := OrderType(t.size, throughPtr, k);
      if err == Failed {
        return Failed;
      }
      WeakReady(g, t.size, err == Strong || !throughPtr, done);
      OneMorePart(g, id, 0, false, old(order), old(done), order, done);
      var isStrong := err == Strong;
      for i := 0 to t.info.vlen
        invariant Orders(g, referenced, order, done, earlier, queue) && OrderedTo(g, old(order), old(done), order, done)
        invariant PartsReady(g, id, i + 1, false, done)
      {
        ParamFalls(g, id, i);
        ProgressFalls(g, old(order), old(done), order, done);
        PartStillWillDo(g, old(order), old(done), order, done, id, i + 1, throughPtr, k);
        ghost var before, had := order, done;
        err := OrderType(t.payload.params[i].typ, throughPtr, k);
        if err == Failed {
          return Failed;
        }
        OrderedToTrans(g, old(order), old(done), before, had, order, done);
        WeakReady(g, t.payload.params[i].typ, err == Strong || !throughPtr, done);
        OneMorePart(g, id, i + 1, false, before, had, order, done);
        if err == Strong {
          isStrong := true;
        }
      }
      OrderSizes(g, referenced, order, done, earlier, queue);
      PrototypeReady(g, id, done);
      WeakerReady(g, id, done);
      return if isStrong then Strong else Weak;
    }

    /** Print one declaration. */
    method Print(e: Event)
      requires Printing() && EventOk(g, Builtins(g, strs), trace, e)
      modifies this`trace
      ensures Printing() && trace == old(trace) + [e] && EmitsTo(emit, old(trace), emit, trace)
    {
      Printed(g, Builtins(g, strs), emit, fwdEmitted, trace, e);
      trace := trace + [e];
    }

    /** btf_dump_emit_type on a type that is being printed: something inside it
        refers back to it. Only a struct or union with a name survives that. */
    method EmitInProgress(id: Id, contId: Id)
      requires id < |g| == |fwdEmitted|
      modifies this`fwdEmitted, this`trace, this`warned
      ensures IsComposite(g[id].info.kind) && IsNamed(g[id]) ==>
                && warned == old(warned)
                && if old(fwdEmitted)[id] || id == contId then trace == old(trace) && fwdEmitted == old(fwdEmitted)
                   else trace == old(trace) + [StructFwd(id)] && fwdEmitted == old(fwdEmitted)[id := true]
    {
      var t := g[id];
      if fwdEmitted[id] {
        return;
      }
      match t.info.kind
      case Struct | Union =>
        if id == contId {
          return;
        }
        if t.nameOff == 0 {
          warned := true;
          return;
        }
        trace := trace + [StructFwd(id)];
        fwdEmitted := fwdEmitted[id := true];
      case Typedef =>
        if !IsBlacklisted(g, strs, id) {
          trace := trace + [TypedefAhead(id)];
        }
        fwdEmitted := fwdEmitted[id := true];
      case _ =>
    }

    /** A type may be printed with others: k steps lead to the ground, and nothing
        being printed in place is that near to it. */
    ghost predicate Near(id: Id, ground: seq<Id>, k: nat)
      requires Closed(g)
      reads this`emit, this`trace
    {
      GroundOk(g, Builtins(g, strs), trace, ground) && Grounded(g, ground, id, k) && Above(g, emit, ground, k)
    }

    /** What may be printed at the top level: a definition, with nothing in
        progress, and a struct or union only with a name and after all it embeds. */
    ghost predicate TopLevel(id: Id, ground: seq<Id>)
      requires CyclesThroughComposites(g) && id < |g|
      reads this`emit, this`trace
    {
      && IsDef(g[id].info.kind) && (forall x :: 0 <= x < |emit| ==> emit[x] != Emitting)
      && GroundOk(g, Builtins(g, strs), trace, ground) && Entered(g, ground, id)
      && (g[id].info.kind == Enum ==> g[id].nameOff != 0 || Unreferenced(g, id))
      && (IsComposite(g[id].info.kind) ==> g[id].nameOff != 0) && EmbeddedDefined(g, Builtins(g, strs), trace, id)
    }

    /** btf_dump_emit_type: what the type needs is printed, and at the top level
        (contId 0) the type itself. */
    method EmitType(id: Id, contId: Id, ghost ground: seq<Id>, ghost k: nat)
      requires Emits() && id < |g| && contId < |g|
      requires if contId == 0 then TopLevel(id, ground) else Near(id, ground, k)
      modifies this`emit, this`fwdEmitted, this`trace, this`warned
      ensures Emits() && EmitsTo(old(emit), old(trace), emit, trace) && warned == old(warned)
      ensures contId != 0 ==> Reached(id, contId)
      ensures contId == 0 && StandsAlone(g, id) ==> Defined(g, Builtins(g, strs), trace, id)
      decreases contId == 0, k, 2
    {
      hide EmitInv, Covered, CoveredTo, Grounded, Above, GroundOk, EmitsTo, CyclesThroughComposites, Entered,
           EmbeddedDefined, DefinitionOk, TypedefOk, Defined, Declared, Noted, IsNew;
      Sizes(g, Builtins(g, strs), emit, fwdEmitted, trace);
      EmitStart(emit, trace);
      var t := g[id];
      if emit[id] == Emitted {
        EmittedCovered(g, Builtins(g, strs), emit, fwdEmitted, trace, id, contId);
        return;
      }
      if emit[id] == Emitting {
        InProgressNamed(g, Builtins(g, strs), emit, fwdEmitted, trace, id, ground, k);
        ghost var fwd0 := fwdEmitted;
        NotedForward(emit, fwdEmitted, trace, id);
        if !fwdEmitted[id] {
          FirstTime(emit, fwdEmitted, trace, StructFwd(id));
        }
        EmitInProgress(id, contId);
        Met(g, Builtins(g, strs), emit, fwd0, old(trace), trace, id, contId);
        return;
      }
      match t.info.kind
      case Int =>
        NotedMark(emit, fwdEmitted, trace, id, Emitted);
        Finish(id, contId);
      case Enum =>
        NotedMark(emit, fwdEmitted, trace, id, Emitted);
        if contId == 0 {
          FirstTime(emit, fwdEmitted, trace, EnumDef(id));
          NotedPrinted(emit, fwdEmitted, trace, EnumDef(id));
          Print(EnumDef(id));
          EnumPrinted(g, Builtins(g, strs), trace, id);
        } else {
          GroundPrinted(g, Builtins(g, strs), trace, ground, id, k);
        }
        ghost var trace0 := trace;
        Finish(id, contId);
        EmitsToTrans(old(emit), old(trace), old(emit), trace0, emit, trace);
      case Ptr | Volatile | Const | Restrict | Array =>
        EmitTarget(id, contId, ground, k);
      case Fwd =>
        FirstTime(emit, fwdEmitted, trace, FwdDef(id));
        NotedPrinted(emit, fwdEmitted, trace, FwdDef(id));
        Print(FwdDef(id));
        EnumPrinted(g, Builtins(g, strs), trace, id);
        ghost var trace0 := trace;
        Finish(id, contId);
        EmitsToTrans(old(emit), old(trace), old(emit), trace0, emit, trace);
      case Typedef =>
        ghost var n := if contId == 0 then TopHeight(g, emit, ground, id) else k;
        EmitTypedef(id, contId, ground, n);
      case Struct | Union =>
        EmitComposite(id, contId, ground, k);
      case FuncProto =>
        ghost var h := Enter(g, emit, ground, id, k);
        EmitParts(id, contId, ground, h);
        AllPartsCovered(g, Builtins(g, strs), trace, id, contId);
      case _ =>
        NothingReached(g, Builtins(g, strs), trace, id, contId);
    }

    /** A type without parts is printed. */
    method Finish(id: Id, contId: Id)
      requires Printing() && id < |g| && emit[id] == NotEmitted && Parts(g, id) == []
      requires Noted(emit[id := Emitted], fwdEmitted, trace)
      requires StandsAlone(g, id) ==> Defined(g, Builtins(g, strs), trace, id)
      modifies this`emit
      ensures Emits() && EmitsTo(old(emit), trace, emit, trace) && Reached(id, contId)
    {
      Marked(g, Builtins(g, strs), emit, fwdEmitted, trace, id, Emitted);
      EmitStart(emit, trace);
      Done(emit, trace, emit, trace, id);
      emit := emit[id := Emitted];
      EmittedCovered(g, Builtins(g, strs), emit, fwdEmitted, trace, id, contId);
    }

    /** A pointer, modifier or array: what it is of. */
    method EmitTarget(id: Id, contId: Id, ghost ground: seq<Id>, ghost k: nat)
      requires Emits() && id < |g| && contId < |g| && contId != 0 && Near(id, ground, k)
      requires g[id].info.kind == Ptr || g[id].info.kind == Array || IsModifier(g[id].info.kind)
      modifies this`emit, this`fwdEmitted, this`trace, this`warned
      ensures Emits() && EmitsTo(old(emit), old(trace), emit, trace) && warned == old(warned) && Reached(id, contId)
      decreases false, k, 1
    {
      hide EmitInv, Covered, CoveredTo, Grounded, Above, GroundOk, EmitsTo, CyclesThroughComposites, Parts, Entered,
           EmbeddedDefined, DefinitionOk, TypedefOk, Defined, Declared;
      Sizes(g, Builtins(g, strs), emit, fwdEmitted, trace);
      ghost var h := Enter(g, emit, ground, id, k);
      TargetInside(g, id);
      TargetIsPart(g, id);
      EmitType(if g[id].info.kind == Array then g[id].payload.elem else g[id].size, contId, ground, h);
      OnePart(g, Builtins(g, strs), trace, id, contId);
    }

    /** The types that a type is printed with, one after the other. */
    method EmitParts(id: Id, contId: Id, ghost ground: seq<Id>, ghost k: nat)
      requires Emits() && id < |g| && contId < |g| && contId != 0
      requires g[id].info.kind == FuncProto || IsComposite(g[id].info.kind)
      requires GroundOk(g, Builtins(g, strs), trace, ground) && Above(g, emit, ground, k)
      requires forall i :: 0 <= i < |Parts(g, id)| ==> Grounded(g, ground, Parts(g, id)[i], k)
      modifies this`emit, this`fwdEmitted, this`trace, this`warned
      ensures Emits() && EmitsTo(old(emit), old(trace), emit, trace) && warned == old(warned)
      ensures CoveredTo(g, Builtins(g, strs), trace, id, |Parts(g, id)|, contId)
      decreases false, k, 3
    {
      hide EmitInv, Covered, CoveredTo, Grounded, Above, GroundOk, EmitsTo, CyclesThroughComposites, Parts, Entered,
           EmbeddedDefined, DefinitionOk, TypedefOk, Defined, Declared;
      Sizes(g, Builtins(g, strs), emit, fwdEmitted, trace);
      EmitStart(emit, trace);
      PartsInside(g, id);
      PartsAreRefs(g, id);
      NoneCovered(g, Builtins(g, strs), trace, id, contId);
      for i := 0 to |Refs(g[id])|
        invariant Emits() && EmitsTo(old(emit), old(trace), emit, trace) && warned == old(warned)
        invariant CoveredTo(g, Builtins(g, strs), trace, id, i, contId)
      {
        StillAbove(g, Builtins(g, strs), old(emit), old(trace), emit, trace, ground, k);
        ghost var emit0, trace0 := emit, trace;
        EmitType(Refs(g[id])[i], contId, ground, k);
        EmitsToTrans(old(emit), old(trace), emit0, trace0, emit, trace);
        OneMoreCovered(g, Builtins(g, strs), emit0, trace0, emit, trace, id, i, contId);
      }
    }

    /** A typedef, after what it names. */
    method EmitTypedef(id: Id, contId: Id, ghost ground: seq<Id>, ghost k: nat)
      requires Emits() && id < |g| && contId < |g| && g[id].info.kind == Typedef && emit[id] == NotEmitted
      requires Near(id, ground, k)
      requires contId == 0 ==> EmbeddedDefined(g, Builtins(g, strs), trace, id)
      modifies this`emit, this`fwdEmitted, this`trace, this`warned
      ensures Emits() && EmitsTo(old(emit), old(trace), emit, trace) && warned == old(warned)
      ensures Defined(g, Builtins(g, strs), trace, id) && Reached(id, contId)
      decreases false, k, 1
    {
      hide EmitInv, Covered, CoveredTo, Grounded, Above, GroundOk, EmitsTo, CyclesThroughComposites, Parts, Entered,
           EmbeddedDefined, DefinitionOk, TypedefOk, Defined, Noted, IsNew;
      Sizes(g, Builtins(g, strs), emit, fwdEmitted, trace);
      TargetInside(g, id);
      TargetIsPart(g, id);
      ghost var h := Enter(g, emit, ground, id, k);
      Marked(g, Builtins(g, strs), emit, fwdEmitted, trace, id, Emitting);
      NotedMark(emit, fwdEmitted, trace, id, Emitting);
      emit := emit[id := Emitting];
      EmitStart(emit, trace);
      EmitType(g[id].size, id, ground, h);
      Sizes(g, Builtins(g, strs), emit, fwdEmitted, trace);
      StillEmitting(old(emit)[id := Emitting], old(trace), emit, trace, id);
      NotedMark(emit, fwdEmitted, trace, id, Emitted);
      if !fwdEmitted[id] && !IsBlacklisted(g, strs, id) {
        ghost var emit0, trace0 := emit, trace;
        ghost var e := if contId == 0 then TypedefDef(id) else TypedefAhead(id);
        FirstTime(emit, fwdEmitted, trace, e);
        NotedPrinted(emit, fwdEmitted, trace, e);
        NotItself(g, Builtins(g, strs), trace, ground, id, h);
        if contId == 0 {
          EmbeddedStays(g, Builtins(g, strs), old(emit)[id := Emitting], old(trace), emit, trace, id);
        }
        Print(if contId == 0 then TypedefDef(id) else TypedefAhead(id));
        EmitsToTrans(old(emit)[id := Emitting], old(trace), emit0, trace0, emit, trace);
      }
      TypedefPrinted(g, Builtins(g, strs), emit, fwdEmitted, trace, id);
      Marked(g, Builtins(g, strs), emit, fwdEmitted, trace, id, Emitted);
      Left(old(emit), old(trace), emit, trace, id, Emitted);
      emit := emit[id := Emitted];
      NameCovered(g, Builtins(g, strs), trace, id, contId);
    }

    /** A struct or union: in place or at the top level what its members need,
        elsewhere a forward declaration; at the top level then the definition. */
    method EmitComposite(id: Id, contId: Id, ghost ground: seq<Id>, ghost k: nat)
      requires Emits() && id < |g| && contId < |g| && IsComposite(g[id].info.kind) && emit[id] == NotEmitted
      requires if contId == 0 then TopLevel(id, ground) else Near(id, ground, k)
      modifies this`emit, this`fwdEmitted, this`trace, this`warned
      ensures Emits() && EmitsTo(old(emit), old(trace), emit, trace) && warned == old(warned)
      ensures contId != 0 ==> Reached(id, contId)
      ensures contId == 0 ==> Defined(g, Builtins(g, strs), trace, id)
      decreases contId == 0, k, 1
    {
      hide EmitInv, Covered, CoveredTo, Grounded, Above, GroundOk, EmitsTo, CyclesThroughComposites, Entered,
           EmbeddedDefined, DefinitionOk, TypedefOk, Defined, Noted;
      Sizes(g, Builtins(g, strs), emit, fwdEmitted, trace);
      var t := g[id];
      ghost var h := 0;
      if contId == 0 {
        h := TopBound(g, emit, ground, id);
      } else if t.nameOff == 0 {
        h := Enter(g, emit, ground, id, k);
      }
      Marked(g, Builtins(g, strs), emit, fwdEmitted, trace, id, Emitting);
      NotedMark(emit, fwdEmitted, trace, id, Emitting);
      emit := emit[id := Emitting];
      EmitStart(emit, trace);
      ghost var emit0 := emit;
      if contId == 0 || t.nameOff == 0 {
        var newContId := if t.nameOff == 0 then contId else id;
        EmitParts(id, newContId, ground, h);
      } else {
        EmitForward(id, contId);
      }
      Sizes(g, Builtins(g, strs), emit, fwdEmitted, trace);
      if contId == 0 {
        DefinitionReady(g, Builtins(g, strs), emit0, old(trace), emit, trace, id);
        EmitDefinition(id, old(emit), old(trace));
      } else {
        Marked(g, Builtins(g, strs), emit, fwdEmitted, trace, id, NotEmitted);
        StillEmitting(emit0, old(trace), emit, trace, id);
        NotedMark(emit, fwdEmitted, trace, id, NotEmitted);
        Left(old(emit), old(trace), emit, trace, id, NotEmitted);
        emit := emit[id := NotEmitted];
        if t.nameOff == 0 {
          AllPartsCovered(g, Builtins(g, strs), trace, id, contId);
        }
      }
    }

    /** A struct or union with a name is declared, unless that has been done or it
        is the one being defined. */
    method EmitForward(id: Id, contId: Id)
      requires Emits() && id < |g| && IsComposite(g[id].info.kind) && g[id].nameOff != 0
      modifies this`fwdEmitted, this`trace
      ensures Emits() && EmitsTo(emit, old(trace), emit, trace) && Reached(id, contId)
    {
      EmitStart(emit, trace);
      if !fwdEmitted[id] && id != contId {
        FirstTime(emit, fwdEmitted, trace, StructFwd(id));
        NotedForward(emit, fwdEmitted, trace, id);
        Print(StructFwd(id));
        Forwarded(g, Builtins(g, strs), emit, fwdEmitted, trace, id);
        fwdEmitted := fwdEmitted[id := true];
      }
      NameCovered(g, Builtins(g, strs), trace, id, contId);
    }

    /** The definition of a struct or union at the top level. */
    method EmitDefinition(id: Id, ghost emit0: seq<EmitState>, ghost trace0: seq<Event>)
      requires Emits() && id < |g| && IsComposite(g[id].info.kind) && g[id].nameOff != 0
      requires DefinitionOk(g, Builtins(g, strs), trace, id)
      requires id < |emit0| && emit0[id] == NotEmitted && EmitsTo(emit0[id := Emitting], trace0, emit, trace)
      modifies this`emit, this`trace
      ensures Emits() && EmitsTo(emit0, trace0, emit, trace) && Defined(g, Builtins(g, strs), trace, id)
    {
      hide DefinitionOk, EmbeddedDefined, EmitsTo, Covered, CyclesThroughComposites, Noted, IsNew;
      ghost var emit1, trace1 := emit, trace;
      StillEmitting(emit0[id := Emitting], trace0, emit, trace, id);
      FirstTime(emit, fwdEmitted, trace, StructDef(id));
      NotedPrinted(emit, fwdEmitted, trace, StructDef(id));
      Print(StructDef(id));
      EmitsToTrans(emit0[id := Emitting], trace0, emit1, trace1, emit, trace);
      Marked(g, Builtins(g, strs), emit, fwdEmitted, trace, id, Emitted);
      Left(emit0, trace0, emit, trace, id, Emitted);
      emit := emit[id := Emitted];
    }

    /** btf_dump_mark_referenced: a type is marked if some type refers to it. */
    method MarkReferenced() returns (ok: bool)
      requires Closed(g) && |referenced| == |g| && forall x :: 0 <= x < |g| ==> !referenced[x]
      modifies this`referenced
      ensures |referenced| == |g| && (ok <==> forall x :: 0 < x < |g| ==> g[x].info.kind != Unkn)
      ensures ok ==> MarksReferences(g, referenced)
    {
      hide Closed, IsReferenced, Marks, MarksReferences;
      NoneReferenced(g);
      for i := 1 to |g|
        invariant |referenced| == |g| && forall x :: 0 < x < i ==> g[x].info.kind != Unkn
        invariant forall y :: 0 <= y < |g| ==> (referenced[y] <==> IsReferenced(g, y, i))
      {
        if g[i].info.kind == Unkn {
          return false;
        }
        RefsOf(g, i);
        MarkAll(Marks(g[i]));
      }
      AllMarked(g, referenced);
      ok := true;
    }

    method MarkAll(ids: seq<Id>)
      requires |referenced| == |g| && forall j :: 0 <= j < |ids| ==> ids[j] < |g|
      modifies this`referenced
      ensures |referenced| == |g|
      ensures forall y :: 0 <= y < |g| ==> (referenced[y] <==> old(referenced)[y] || y in ids)
    {
      for j := 0 to |ids|
        invariant |referenced| == |g|
        invariant forall y :: 0 <= y < |g| ==> (referenced[y] <==> old(referenced)[y] || y in ids[..j])
      {
        referenced := referenced[ids[j] := true];
      }
      assert ids[..|ids|] == ids;
    }

    /** Between dumps, as long as none has failed. */
    ghost predicate Valid()
      reads this
    {
      && CyclesThroughComposites(g)
      && (|order| != 0 ==>
            && Orders(g, referenced, order, done, earlier, queue) && Emits()
            && (forall x :: 0 <= x < |g| ==> order[x] != Ordering && emit[x] != Emitting)
            && order[0] == Ordered && KnownKinds(g) && MarksReferences(g, referenced)
            && AllDefined(g, Builtins(g, strs), trace, earlier + queue))
      && !warned && (|order| == 0 ==> trace == [] && done == earlier == queue == [])
    }

    /** Allocate the states, with void ordered and printed from the start. */
    method SetUp() returns (ok: bool)
      requires CyclesThroughComposites(g) && !warned && trace == [] && done == earlier == queue == []
      modifies this`order, this`emit, this`fwdEmitted, this`referenced
      ensures ok ==> Valid() && |order| == |g|
      ensures ok <==> KnownKinds(g)
      ensures ok ==> MarksReferences(g, referenced)
    {
      hide OrderInv, MarksReferences, EmitInv, CyclesThroughComposites, Queued;
      ClosedNonEmpty(g);
      order := seq(|g|, i => if i == 0 then Ordered else NotOrdered);
      emit := seq(|g|, i => if i == 0 then Emitted else NotEmitted);
      fwdEmitted := seq(|g|, _ => false);
      referenced := seq(|g|, _ => false);
      ok := MarkReferenced();
      if ok {
        FreshStates(g, Builtins(g, strs), order, emit, fwdEmitted, referenced);
        NothingNoted(emit, fwdEmitted);
      }
    }

    /** btf_dump__dump_type: succeeds if all kinds are known and no struct or union
        on the way holds itself, and only then as long as functions are only
        pointed at. Then everything queued is defined, each definition after what
        it embeds and with all it reaches declared; a named type is itself defined. */
    method DumpType(id: Id) returns (ok: bool)
      requires Valid()
      modifies this
      ensures !warned
      ensures ok ==> Valid() && id < |g| && |order| == |g| && old(trace) <= trace
      ensures ok ==> TraceOk(g, Builtins(g, strs), trace)
      ensures ok && StandsAlone(g, id) ==> Defined(g, Builtins(g, strs), trace, id)
      ensures ok ==> forall y: Id :: EnumDef(y) in trace ==> y < |g| && (g[y].nameOff != 0 || Unreferenced(g, y))
      ensures ok && IsDef(g[id].info.kind) ==> forall k: nat :: !Embeds(g, id, id, k)
      ensures id < |g| && KnownKinds(g) && Tame(g, id, false) ==> ok
      ensures ok && NoFunctionMembers(g) && !Bare(g, id) ==> KnownKinds(g) && Tame(g, id, false)
    {
      hide Orders, AllDefined, EmitsTo, Queued, Embeds, Defined, TraceOk, CyclesThroughComposites, EmitInv, Tame,
           MarksReferences, StandsAlone, Unreferenced, WillDo, KnownKinds, NoFunctionMembers, Bare;
      ClosedNonEmpty(g);
      if id >= |g| {
        return false;
      }
      if |order| == 0 {
        NothingDefined(g, Builtins(g, strs), trace);
        ok := SetUp();
        if !ok {
          return;
        }
      }
      StartQueue();
      ghost var started := order;
      OrderSizes(g, referenced, order, done, earlier, queue);
      if Tame(g, id, false) {
        TameWillDo(g, order, id);
      }
      var ret := OrderType(id, false, |g| + 1);
      if ret == Failed {
        return false;
      }
      ok := EmitQueue(started);
      TraceInOrder(g, Builtins(g, strs), emit, fwdEmitted, trace);
      EnumsAlone(g, Builtins(g, strs), trace);
      DumpedTo(g, Builtins(g, strs), referenced, order, done, earlier, queue, trace, id);
      DumpedTame(g, referenced, order, done, earlier, queue, id);
    }

    /** The queue starts empty. */
    method StartQueue()
      requires Orders(g, referenced, order, done, earlier, queue)
      modifies this`queue, this`earlier
      ensures Orders(g, referenced, order, done, earlier, queue) && queue == [] && earlier == old(earlier + queue)
    {
      earlier := earlier + queue;
      queue := [];
      assert earlier + queue == old(earlier + queue);
    }

    /** Print what has been queued. */
    method EmitQueue(ghost started: seq<OrderState>) returns (ok: bool)
      requires Orders(g, referenced, order, done, earlier, queue) && Emits() && MarksReferences(g, referenced)
      requires |started| == |g| && Progress(started, order)
      requires forall x :: 0 <= x < |g| ==> started[x] != Ordering && emit[x] != Emitting
      requires AllDefined(g, Builtins(g, strs), trace, earlier)
      modifies this`emit, this`fwdEmitted, this`trace, this`warned
      ensures ok && Emits() && (forall x :: 0 <= x < |g| ==> emit[x] != Emitting)
      ensures AllDefined(g, Builtins(g, strs), trace, earlier + queue)
      ensures old(trace) <= trace && warned == old(warned)
    {
      EmitStart(emit, trace);
      assert earlier + queue[..0] == earlier;
      for i := 0 to |queue|
        invariant Emits() && EmitsTo(old(emit), old(trace), emit, trace) && warned == old(warned)
        invariant AllDefined(g, Builtins(g, strs), trace, earlier + queue[..i])
      {
        ghost var ground := ReadyForTop(g, Builtins(g, strs), referenced, order, done, earlier, queue, trace, i);
        ghost var emit0, trace0 := emit, trace;
        EmitType(queue[i], 0, ground, 0);
        EmitsToTrans(old(emit), old(trace), emit0, trace0, emit, trace);
        OneMoreDefined(g, Builtins(g, strs), emit0, trace0, emit, trace, earlier, queue, i);
      }
      assert queue[..|queue|] == queue;
      ok := true;
    }
  }

  lemma StillEmitting(emit: seq<EmitState>, trace: seq<Event>, later: seq<EmitState>, trace': seq<Event>, x: Id)
    requires x < |emit| && emit[x] == Emitting && EmitsTo(emit, trace, later, trace')
    ensures x < |later| && later[x] == Emitting
  {
  }

  /** Met while it is printed, a type near the ground is a struct or union with a name. */
  lemma InProgressNamed(g: seq<BtfType>, builtin: set<Id>, emit: seq<EmitState>, fwd: seq<bool>, trace: seq<Event>,
                        x: Id, ground: seq<Id>, k: nat)
    requires CyclesThroughComposites(g) && EmitInv(g, builtin, emit, fwd, trace) && x < |g| && emit[x] == Emitting
    requires Grounded(g, ground, x, k) && Above(g, emit, ground, k)
    ensures IsComposite(g[x].info.kind) && IsNamed(g[x])
  {
  }

  /** What printing has done for a struct or union with a name that it met again. */
  lemma Met(g: seq<BtfType>, builtin: set<Id>, emit: seq<EmitState>, fwd: seq<bool>, trace: seq<Event>,
            trace': seq<Event>, x: Id, cont: Id)
    requires CyclesThroughComposites(g) && EmitInv(g, builtin, emit, fwd, trace) && x < |g|
    requires IsComposite(g[x].info.kind) && IsNamed(g[x])
    requires trace' == if fwd[x] || x == cont then trace else trace + [StructFwd(x)]
    requires fwd[x] || IsNew(trace, StructFwd(x))
    ensures EmitInv(g, builtin, emit, fwd, trace')
    ensures fwd[x] || x != cont ==> EmitInv(g, builtin, emit, fwd[x := true], trace')
    ensures EmitsTo(emit, trace, emit, trace') && Covered(g, builtin, trace', x, cont)
  {
    EmitStart(emit, trace);
    if !fwd[x] && x != cont {
      Printed(g, builtin, emit, fwd, trace, StructFwd(x));
    }
    if fwd[x] || x != cont {
      Forwarded(g, builtin, emit, fwd, trace', x);
    }
    NameCovered(g, builtin, trace', x, cont);
  }

  /** At the top level nothing is in progress, and one height will do for all members. */
  lemma TopBound(g: seq<BtfType>, emit: seq<EmitState>, ground: seq<Id>, x: Id) returns (k: nat)
    requires Closed(g) && x < |g| == |emit| && Entered(g, ground, x) && !Passes(g[x])
    requires forall y :: 0 <= y < |emit| ==> emit[y] != Emitting
    ensures Above(g, emit[x := Emitting], ground, k)
    ensures forall i :: 0 <= i < |Parts(g, x)| ==> Grounded(g, ground, Parts(g, x)[i], k)
  {
    k := CommonBound(g, ground, Parts(g, x));
  }

  /** At the top level nothing is in progress, so any height will do. */
  ghost function TopHeight(g: seq<BtfType>, emit: seq<EmitState>, ground: seq<Id>, x: Id): (k: nat)
    requires Closed(g) && x < |g| && Entered(g, ground, x) && g[x].info.kind == Typedef
    requires forall y :: 0 <= y < |emit| ==> emit[y] != Emitting
    ensures Grounded(g, ground, x, k) && Above(g, emit, ground, k)
  {
    EnteredSettles(g, ground, x);
    var k: nat :| Grounded(g, ground, x, k);
    k
  }

  lemma EnumPrinted(g: seq<BtfType>, builtin: set<Id>, trace: seq<Event>, x: Id)
    requires x < |g|
    requires (g[x].info.kind == Enum && EnumDef(x) in trace) || (g[x].info.kind == Fwd && FwdDef(x) in trace)
    ensures Defined(g, builtin, trace, x)
  {
  }

  lemma PtrFalls(g: seq<BtfType>, x: Id)
    requires CyclesThroughComposites(g) && x < |g| && g[x].info.kind == Ptr
    ensures WellFormed(g[x]) && Target(g[x]) == g[x].size < |g| && Rank(g, g[x].size) < Rank(g, x)
    ensures !IsDef(g[x].info.kind) && !IsPath(g[x].info.kind)
  {
    TargetInside(g, x);
  }

  lemma TargetIsPart(g: seq<BtfType>, x: Id)
    requires x < |g| && WellFormed(g[x])
    requires g[x].info.kind == Array || g[x].info.kind == Ptr || g[x].info.kind == Typedef || IsModifier(g[x].info.kind)
    ensures |Parts(g, x)| == 1 && Parts(g, x)[0] == Target(g[x])
    ensures Target(g[x]) == if g[x].info.kind == Array then g[x].payload.elem else g[x].size
  {
  }

  /** The one type that x is printed with will do. */
  lemma TargetWillDo(g: seq<BtfType>, order: seq<OrderState>, x: Id, ptr: bool, k: nat)
    requires CyclesThroughComposites(g) && x < |g|
    requires g[x].info.kind == Array || g[x].info.kind == Ptr || g[x].info.kind == Typedef || IsModifier(g[x].info.kind)
    ensures WillDo(g, order, x, ptr, k) ==> WillDo(g, order, Target(g[x]), ptr || g[x].info.kind == Ptr, k)
  {
    PassedWillDo(g, order, x, ptr, k);
    TargetIsPart(g, x);
    hide WillDo;
  }

  lemma PartsAreRefs(g: seq<BtfType>, x: Id)
    requires x < |g| && WellFormed(g[x]) && (g[x].info.kind == FuncProto || IsComposite(g[x].info.kind))
    ensures Parts(g, x) == Refs(g[x])
  {
  }

  /** What is ready for a strong link is ready for any. */
  lemma WeakerReady(g: seq<BtfType>, x: Id, done: seq<Id>)
    requires CyclesThroughComposites(g) && x < |g| && Ready(g, x, true, done)
    ensures forall strong :: Ready(g, x, strong, done)
  {
  }

  lemma WeakReady(g: seq<BtfType>, x: Id, strong: bool, done: seq<Id>)
    requires CyclesThroughComposites(g) && x < |g| && Ready(g, x, strong, done)
    ensures Ready(g, x, false, done)
  {
  }

  lemma ClosedNonEmpty(g: seq<BtfType>)
    requires CyclesThroughComposites(g)
    ensures Closed(g) && |g| > 0
  {
  }

  /** Before the first dump nothing but void is ordered or printed. */
  lemma FreshStates(g: seq<BtfType>, builtin: set<Id>, order: seq<OrderState>, emit: seq<EmitState>, fwd: seq<bool>,
                    referenced: seq<bool>)
    requires CyclesThroughComposites(g) && |order| == |emit| == |fwd| == |referenced| == |g|
    requires forall x :: 0 <= x < |g| ==>
               && order[x] == (if x == 0 then Ordered else NotOrdered)
               && emit[x] == (if x == 0 then Emitted else NotEmitted) && !fwd[x]
    ensures Orders(g, referenced, order, [], [], []) && EmitInv(g, builtin, emit, fwd, [])
  {
    FreshOrders(g, referenced, order);
    FreshEmits(g, builtin, emit, fwd);
  }

  lemma FreshOrders(g: seq<BtfType>, referenced: seq<bool>, order: seq<OrderState>)
    requires CyclesThroughComposites(g) && |order| == |referenced| == |g|
    requires forall x :: 0 <= x < |g| ==> order[x] == if x == 0 then Ordered else NotOrdered
    ensures Orders(g, referenced, order, [], [], [])
  {
    hide MayFinish, Ready;
  }

  lemma FreshEmits(g: seq<BtfType>, builtin: set<Id>, emit: seq<EmitState>, fwd: seq<bool>)
    requires CyclesThroughComposites(g) && |emit| == |fwd| == |g|
    requires forall x :: 0 <= x < |g| ==> emit[x] == (if x == 0 then Emitted else NotEmitted) && !fwd[x]
    ensures EmitInv(g, builtin, emit, fwd, [])
  {
    hide EventOk, Declared, Defined;
  }

  /** An enum is printed on its own only if it has a name or nothing refers to it. */
  lemma EnumsAlone(g: seq<BtfType>, builtin: set<Id>, trace: seq<Event>)
    requires CyclesThroughComposites(g) && TraceOk(g, builtin, trace)
    ensures forall y: Id :: EnumDef(y) in trace ==> y < |g| && (g[y].nameOff != 0 || Unreferenced(g, y))
  {
    forall y: Id | EnumDef(y) in trace
      ensures y < |g| && (g[y].nameOff != 0 || Unreferenced(g, y))
    {
      var i :| 0 <= i < |trace| && trace[i] == EnumDef(y);
      assert EventOk(g, builtin, trace[..i], trace[i]);
    }
  }

  lemma TraceInOrder(g: seq<BtfType>, builtin: set<Id>, emit: seq<EmitState>, fwd: seq<bool>, trace: seq<Event>)
    requires CyclesThroughComposites(g) && EmitInv(g, builtin, emit, fwd, trace)
    ensures |emit| == |g| && TraceOk(g, builtin, trace)
  {
  }

  lemma NothingDefined(g: seq<BtfType>, builtin: set<Id>, trace: seq<Event>)
    ensures AllDefined(g, builtin, trace, [] + [])
  {
  }

  lemma DumpedTame(g: seq<BtfType>, referenced: seq<bool>, order: seq<OrderState>, done: seq<Id>,
                   earlier: seq<Id>, queue: seq<Id>, id: Id)
    requires Orders(g, referenced, order, done, earlier, queue) && id < |g| && Ready(g, id, true, done)
    ensures NoFunctionMembers(g) && !Bare(g, id) ==> Tame(g, id, false)
  {
    hide DepsFirst, Queued, Ready, Tame, NoFunctionMembers, Bare, CyclesThroughComposites;
    DoneInside(g, order, done);
    if NoFunctionMembers(g) && !Bare(g, id) {
      ReadyIsTame(g, id, done);
    }
  }

  /** What a dump that went well says of its type. */
  lemma DumpedTo(g: seq<BtfType>, builtin: set<Id>, referenced: seq<bool>, order: seq<OrderState>, done: seq<Id>,
                 earlier: seq<Id>, queue: seq<Id>, trace: seq<Event>, id: Id)
    requires Orders(g, referenced, order, done, earlier, queue) && id < |g| && Ready(g, id, true, done)
    requires AllDefined(g, builtin, trace, earlier + queue)
    ensures MarksReferences(g, referenced) && StandsAlone(g, id) ==> Defined(g, builtin, trace, id)
    ensures IsDef(g[id].info.kind) ==> forall k: nat :: !Embeds(g, id, id, k)
  {
    hide AllDefined, Queued, Ready, Embeds, OrderInv, MarksReferences, Defined, CyclesThroughComposites;
    if IsDef(g[id].info.kind) {
      ReadyIsDone(g, order, done, id);
      forall k: nat
        ensures !Embeds(g, id, id, k)
      {
        DoneEmbedsNot(g, order, done, id, k);
      }
    }
    if MarksReferences(g, referenced) && StandsAlone(g, id) {
      ReadyIsDone(g, order, done, id);
      DoneIsDefined(g, builtin, referenced, order, done, trace, id);
    }
  }

  lemma ReadyIsDone(g: seq<BtfType>, order: seq<OrderState>, done: seq<Id>, id: Id)
    requires CyclesThroughComposites(g) && OrderInv(g, order, done) && id < |g| && Ready(g, id, true, done)
    ensures IsDef(g[id].info.kind) ==> id in done
  {
    hide OrderInv, DepsFirst, Grounded;
    assert IsDef(g[id].info.kind) ==> Needs(g, id, false, id);
  }

  /** What is done and has to be printed on its own was queued. */
  lemma DoneIsDefined(g: seq<BtfType>, builtin: set<Id>, referenced: seq<bool>, order: seq<OrderState>, done: seq<Id>,
                      trace: seq<Event>, id: Id)
    requires CyclesThroughComposites(g) && OrderInv(g, order, done) && |referenced| == |g| && id < |g| && id in done
    requires MarksReferences(g, referenced) && StandsAlone(g, id)
    requires AllDefined(g, builtin, trace, Queued(g, referenced, done))
    ensures Defined(g, builtin, trace, id)
  {
    hide Queued, AllDefined, Defined, MayFinish, Unreferenced;
    DoneInside(g, order, done);
    QueuedIn(g, referenced, done, id);
    ListedDefined(g, builtin, trace, Queued(g, referenced, done), id);
  }

  lemma DoneEmbedsNot(g: seq<BtfType>, order: seq<OrderState>, done: seq<Id>, id: Id, k: nat)
    requires CyclesThroughComposites(g) && OrderInv(g, order, done) && id < |g| && id in done
    ensures !Embeds(g, id, id, k)
  {
    hide DepsFirst, Embeds;
    if Embeds(g, id, id, k) {
      SelfEmbeddingFails(g, done, id, k);
    }
  }

  /** The references that are marked: all but the result type of a prototype. */
  function Marks(t: BtfType): seq<Id> {
    if t.info.kind == FuncProto then PayloadRefs(t.payload) else Refs(t)
  }

  /** The types marked are those that some type refers to. */
  ghost predicate MarksReferences(g: seq<BtfType>, referenced: seq<bool>) {
    |referenced| == |g| && forall y :: 0 <= y < |g| ==> (referenced[y] <==> !Unreferenced(g, y))
  }

  lemma MarksAre(t: BtfType, y: Id)
    requires WellFormed(t)
    ensures y in Marks(t) <==> RefersTo(t, y)
  {
    var ps := PayloadRefs(t.payload);
    assert y in ps <==> match t.payload
                        case ArrayData(elem, index, _) => elem == y || index == y
                        case Members(ms) => exists i :: 0 <= i < |ms| && ms[i].typ == y
                        case Params(vs) => exists i :: 0 <= i < |vs| && vs[i].typ == y
                        case SecInfos(vs) => exists i :: 0 <= i < |vs| && vs[i].typ == y
                        case _ => false by {
      match t.payload
      case Members(ms) => assert forall i :: 0 <= i < |ms| ==> ps[i] == ms[i].typ;
      case Params(vs) => assert forall i :: 0 <= i < |vs| ==> ps[i] == vs[i].typ;
      case SecInfos(vs) => assert forall i :: 0 <= i < |vs| ==> ps[i] == vs[i].typ;
      case _ =>
    }
    assert HeaderRefs(t.info.kind) ==> Refs(t) == [t.size] + ps;
  }

  lemma AllMarked(g: seq<BtfType>, referenced: seq<bool>)
    requires Closed(g) && |referenced| == |g|
    requires forall y :: 0 <= y < |g| ==> (referenced[y] <==> IsReferenced(g, y, |g|))
    ensures MarksReferences(g, referenced)
  {
    hide Marks, RefersTo;
    forall y | 0 <= y < |g|
      ensures IsReferenced(g, y, |g|) <==> !Unreferenced(g, y)
    {
      forall x | 0 < x < |g|
        ensures y in Marks(g[x]) <==> RefersTo(g[x], y)
      {
        MarksAre(g[x], y);
      }
    }
  }

  /** Some type below n refers to y. */
  ghost predicate IsReferenced(g: seq<BtfType>, y: Id, n: nat) {
    exists i :: 0 < i < n && i < |g| && y in Marks(g[i])
  }

  lemma NoneReferenced(g: seq<BtfType>)
    requires Closed(g)
    ensures |g| > 0 && forall y :: 0 <= y < |g| ==> !IsReferenced(g, y, 1)
  {
  }

  lemma RefsOf(g: seq<BtfType>, i: nat)
    requires Closed(g) && 0 < i < |g|
    ensures forall j :: 0 <= j < |Marks(g[i])| ==> Marks(g[i])[j] < |g|
    ensures forall y :: 0 <= y < |g| ==> (IsReferenced(g, y, i + 1) <==> IsReferenced(g, y, i) || y in Marks(g[i]))
  {
    assert g[i].info.kind == FuncProto ==> forall j :: 0 <= j < |Marks(g[i])| ==> Marks(g[i])[j] == Refs(g[i])[j + 1];
  }

  /** Every named type of a queue has been defined. */
  ghost predicate AllDefined(g: seq<BtfType>, builtin: set<Id>, trace: seq<Event>, ids: seq<Id>) {
    forall i :: 0 <= i < |ids| && ids[i] < |g| && StandsAlone(g, ids[i]) ==> Defined(g, builtin, trace, ids[i])
  }

  /** A queued type may be printed at the top level once those before it are. */
  lemma ReadyForTop(g: seq<BtfType>, builtin: set<Id>, referenced: seq<bool>, order: seq<OrderState>, done: seq<Id>,
                    earlier: seq<Id>, queue: seq<Id>, trace: seq<Event>, i: nat) returns (ground: seq<Id>)
    requires Orders(g, referenced, order, done, earlier, queue) && i < |queue| && MarksReferences(g, referenced)
    requires AllDefined(g, builtin, trace, earlier + queue[..i])
    ensures queue[i] < |g| && IsDef(g[queue[i]].info.kind)
    ensures GroundOk(g, builtin, trace, ground) && Entered(g, ground, queue[i])
    ensures IsComposite(g[queue[i]].info.kind) ==> g[queue[i]].nameOff != 0
    ensures g[queue[i]].info.kind == Enum ==> g[queue[i]].nameOff != 0 || Unreferenced(g, queue[i])
    ensures EmbeddedDefined(g, builtin, trace, queue[i])
  {
    var q, n := Queued(g, referenced, done), |earlier| + i;
    assert q[n] == queue[i] && q[..n] == earlier + queue[..i];
    var p := Place(g, referenced, done, n);
    IsInQueue(g, referenced, done, n);
    ground := done[..p];
    assert MayFinish(g, done[p], ground);
    QueuedPrefix(g, referenced, done, p);
    PrintedGround(g, builtin, referenced, done, p, trace);
    PrintedBefore(g, builtin, referenced, order, done, n, trace);
  }

  /** What is done before p has been printed if it has a name. */
  lemma PrintedGround(g: seq<BtfType>, builtin: set<Id>, referenced: seq<bool>, done: seq<Id>, p: nat,
                      trace: seq<Event>)
    requires |g| == |referenced| && (forall j :: 0 <= j < |done| ==> done[j] < |g|) && p <= |done|
    requires MarksReferences(g, referenced)
    requires AllDefined(g, builtin, trace, Queued(g, referenced, done[..p]))
    ensures GroundOk(g, builtin, trace, done[..p])
  {
    forall y |
      y in done[..p] && y < |g| && (g[y].info.kind == Enum || g[y].info.kind == Fwd) && StandsAlone(g, y)
      ensures Defined(g, builtin, trace, y)
    {
      QueuedIn(g, referenced, done[..p], y);
    }
  }

  lemma ListedDefined(g: seq<BtfType>, builtin: set<Id>, trace: seq<Event>, ids: seq<Id>, y: Id)
    requires AllDefined(g, builtin, trace, ids) && y in ids && y < |g| && StandsAlone(g, y)
    ensures Defined(g, builtin, trace, y)
  {
  }

  /** What the n-th queued definition embeds has been printed if those before it have. */
  lemma PrintedBefore(g: seq<BtfType>, builtin: set<Id>, referenced: seq<bool>, order: seq<OrderState>, done: seq<Id>,
                      n: nat, trace: seq<Event>)
    requires CyclesThroughComposites(g) && |referenced| == |g| && OrderInv(g, order, done)
    requires n < |Queued(g, referenced, done)|
    requires AllDefined(g, builtin, trace, Queued(g, referenced, done)[..n])
    ensures EmbeddedDefined(g, builtin, trace, Queued(g, referenced, done)[n])
  {
    var x := Queued(g, referenced, done)[n];
    forall y: Id, k: nat | y < |g| && IsNamed(g[y]) && Embeds(g, x, y, k)
      ensures Defined(g, builtin, trace, y)
    {
      OnePrintedBefore(g, builtin, referenced, order, done, n, trace, y, k);
    }
  }

  lemma OnePrintedBefore(g: seq<BtfType>, builtin: set<Id>, referenced: seq<bool>, order: seq<OrderState>,
                         done: seq<Id>, n: nat, trace: seq<Event>,
                         y: Id, k: nat)
    requires CyclesThroughComposites(g) && |referenced| == |g| && OrderInv(g, order, done)
    requires n < |Queued(g, referenced, done)|
    requires AllDefined(g, builtin, trace, Queued(g, referenced, done)[..n])
    requires y < |g| && IsNamed(g[y]) && Embeds(g, Queued(g, referenced, done)[n], y, k)
    ensures Defined(g, builtin, trace, y)
  {
    QueueOrder(g, referenced, order, done, n, y, k);
    ListedDefined(g, builtin, trace, Queued(g, referenced, done)[..n], y);
  }

  lemma {:induction false} IsInQueue(g: seq<BtfType>, referenced: seq<bool>, done: seq<Id>, i: nat)
    requires |g| == |referenced| && (forall j :: 0 <= j < |done| ==> done[j] < |g|) && i < |Queued(g, referenced, done)|
    ensures Queued(g, referenced, done)[i] < |g| && IsQueued(g, referenced, Queued(g, referenced, done)[i])
  {
    var front := done[..|done| - 1];
    if i < |Queued(g, referenced, front)| {
      IsInQueue(g, referenced, front, i);
    }
  }

  lemma OneMoreDefined(g: seq<BtfType>, builtin: set<Id>, emit: seq<EmitState>, trace: seq<Event>,
                       later: seq<EmitState>, trace': seq<Event>,
                       earlier: seq<Id>, queue: seq<Id>, i: nat)
    requires i < |queue| && queue[i] < |g| && EmitsTo(emit, trace, later, trace')
    requires AllDefined(g, builtin, trace, earlier + queue[..i])
    requires StandsAlone(g, queue[i]) ==> Defined(g, builtin, trace', queue[i])
    ensures AllDefined(g, builtin, trace', earlier + queue[..i + 1])
  {
    var a, b := earlier + queue[..i], earlier + queue[..i + 1];
    forall j | 0 <= j < |b| && b[j] < |g| && StandsAlone(g, b[j])
      ensures Defined(g, builtin, trace', b[j])
    {
      if j < |a| {
        assert a[j] == b[j];
        StaysDeclared(g, builtin, trace, trace', a[j]);
      }
    }
  }

  /** The result type of a prototype is reference 0, and parameter i reference i + 1. */
  lemma ResultFalls(g: seq<BtfType>, x: Id)
    requires CyclesThroughComposites(g) && x < |g| && g[x].info.kind == FuncProto
    ensures g[x].payload.Params? && g[x].info.vlen == |g[x].payload.params| && IsThrough(g[x].info.kind)
    ensures Closed(g) && WellFormed(g[x])
    ensures g[x].size < |g| && Rank(g, g[x].size) < Rank(g, x)
    ensures |Parts(g, x)| == g[x].info.vlen + 1 && Parts(g, x)[0] == g[x].size
  {
    assert Refs(g[x])[0] == g[x].size;
  }

  lemma ParamFalls(g: seq<BtfType>, x: Id, i: nat)
    requires CyclesThroughComposites(g) && x < |g| && g[x].info.kind == FuncProto && i < |g[x].payload.params|
    ensures g[x].payload.params[i].typ < |g| && Rank(g, g[x].payload.params[i].typ) < Rank(g, x)
    ensures i + 1 < |Parts(g, x)| && Parts(g, x)[i + 1] == g[x].payload.params[i].typ
  {
    assert Refs(g[x])[i + 1] == g[x].payload.params[i].typ;
  }
}