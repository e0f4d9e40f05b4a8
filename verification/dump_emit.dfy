/** What btf_dump prints (eBPF_app/libbpf/src/btf_dump.c), as a trace of declarations. */
module DumpEmit {
  import opened BtfTypes
  import opened DumpOrder

  datatype EmitState = NotEmitted | Emitting | Emitted

  datatype Event =
    | StructFwd(id: Id)
    | StructDef(id: Id)
    | EnumDef(id: Id)
    | FwdDef(id: Id)
    | TypedefDef(id: Id)       // in its own turn
    | TypedefAhead(id: Id)     // before that, because something is declared with it

  /** A typedef, or a struct, union, enum or forward declaration with a name. */
  predicate IsNamed(t: BtfType) {
    t.info.kind == Typedef || (IsDef(t.info.kind) && t.nameOff != 0)
  }

  /** Field by field: a descriptor refers to y, other than as the result of a prototype. */
  predicate RefersTo(t: BtfType, y: Id) {
    || (t.info.kind in {Ptr, Const, Volatile, Restrict, Typedef, Func, Var} && t.size == y)
    || match t.payload
       case ArrayData(elem, index, _) => elem == y || index == y
       case Members(ms) => exists i :: 0 <= i < |ms| && ms[i].typ == y
       case Params(ps) => exists i :: 0 <= i < |ps| && ps[i].typ == y
       case SecInfos(vs) => exists i :: 0 <= i < |vs| && vs[i].typ == y
       case _ => false
  }

  ghost predicate Unreferenced(g: seq<BtfType>, y: Id) {
    forall x :: 0 < x < |g| ==> !RefersTo(g[x], y)
  }

  /** What has to be printed on its own: what has a name, and enums and forward
      declarations that nothing refers to. */
  ghost predicate StandsAlone(g: seq<BtfType>, y: Id) {
    && y < |g|
    && (IsNamed(g[y]) || ((g[y].info.kind == Enum || g[y].info.kind == Fwd) && Unreferenced(g, y)))
  }

  /** Printed: a struct or union in full, a typedef unless the compiler has it built in. */
  ghost predicate Defined(g: seq<BtfType>, builtin: set<Id>, trace: seq<Event>, y: Id)
    requires y < |g|
  {
    match g[y].info.kind
    case Typedef => TypedefDef(y) in trace || TypedefAhead(y) in trace || y in builtin
    case Enum => EnumDef(y) in trace
    case Fwd => FwdDef(y) in trace
    case _ => StructDef(y) in trace
  }

  /** Printed enough to be pointed at: a struct or union may only be declared. */
  ghost predicate Declared(g: seq<BtfType>, builtin: set<Id>, trace: seq<Event>, y: Id)
    requires y < |g|
  {
    Defined(g, builtin, trace, y) || (IsComposite(g[y].info.kind) && StructFwd(y) in trace)
  }

  /** From x one comes to y through pointers, arrays, modifiers, prototypes and
      anonymous structs and unions, in at most k steps, without passing a name. */
  ghost predicate Reaches(g: seq<BtfType>, x: Id, y: Id, k: nat)
    requires Closed(g)
    decreases k
  {
    x < |g| && if IsNamed(g[x]) then y == x else k > 0 && exists i ::
      0 <= i < |Parts(g, x)| && Reaches(g, Parts(g, x)[i], y, k - 1)
  }

  /** Every name that x reaches is declared, or is the one being defined. */
  ghost predicate Covered(g: seq<BtfType>, builtin: set<Id>, trace: seq<Event>, x: Id, cont: Id)
    requires Closed(g)
  {
    forall y: Id, k: nat :: y < |g| && Reaches(g, x, y, k) ==> Declared(g, builtin, trace, y) || y == cont
  }

  /** The definition of a struct or union may be printed: what it embeds is
      defined, and what its members reach is declared. */
  ghost predicate DefinitionOk(g: seq<BtfType>, builtin: set<Id>, trace: seq<Event>, s: Id)
    requires CyclesThroughComposites(g)
  {
    && s < |g|
    && EmbeddedDefined(g, builtin, trace, s)
    && (forall i :: 0 <= i < |Refs(g[s])| ==> Covered(g, builtin, trace, Refs(g[s])[i], s))
  }

  /** A typedef may be printed: what it reaches is declared. */
  ghost predicate TypedefOk(g: seq<BtfType>, builtin: set<Id>, trace: seq<Event>, x: Id)
    requires Closed(g)
  {
    x < |g| && g[x].info.kind == Typedef && Covered(g, builtin, trace, Target(g[x]), 0)
  }

  /** Nothing is printed twice, and no typedef in two ways. */
  predicate IsNew(trace: seq<Event>, e: Event) {
    match e
    case TypedefDef(x) => TypedefDef(x) !in trace && TypedefAhead(x) !in trace
    case TypedefAhead(x) => TypedefDef(x) !in trace && TypedefAhead(x) !in trace
    case _ => e !in trace
  }

  ghost predicate EventOk(g: seq<BtfType>, builtin: set<Id>, trace: seq<Event>, e: Event)
    requires CyclesThroughComposites(g)
  {
    IsNew(trace, e) &&
    match e
    case StructFwd(x) => x < |g| && IsComposite(g[x].info.kind) && g[x].nameOff != 0
    case StructDef(x) => DefinitionOk(g, builtin, trace, x) && IsComposite(g[x].info.kind) && g[x].nameOff != 0
    case TypedefDef(x) => TypedefOk(g, builtin, trace, x) && x !in builtin && EmbeddedDefined(g, builtin, trace, x)
    case TypedefAhead(x) => TypedefOk(g, builtin, trace, x) && x !in builtin
    case EnumDef(x) => x < |g| && g[x].info.kind == Enum && (g[x].nameOff != 0 || Unreferenced(g, x))
    case FwdDef(x) => x < |g| && g[x].info.kind == Fwd
  }

  /** Every printed definition was in order when it was printed. */
  ghost predicate TraceOk(g: seq<BtfType>, builtin: set<Id>, trace: seq<Event>)
    requires CyclesThroughComposites(g)
  {
    forall i :: 0 <= i < |trace| ==> EventOk(g, builtin, trace[..i], trace[i])
  }

  /** No definition is printed twice. */
  lemma PrintedOnce(g: seq<BtfType>, builtin: set<Id>, trace: seq<Event>, i: nat, j: nat)
    requires CyclesThroughComposites(g) && TraceOk(g, builtin, trace) && i < j < |trace|
    ensures trace[i] != trace[j]
    ensures trace[i].TypedefDef? || trace[i].TypedefAhead? ==>
              forall x :: trace[i].id == x ==> trace[j] != TypedefDef(x) && trace[j] != TypedefAhead(x)
  {
    assert trace[..j][i] == trace[i];
    assert EventOk(g, builtin, trace[..j], trace[j]);
  }

  /** The type is defined in the output. */
  predicate Out(trace: seq<Event>, x: Id) {
    || StructDef(x) in trace || EnumDef(x) in trace || FwdDef(x) in trace
    || TypedefDef(x) in trace || TypedefAhead(x) in trace
  }

  /** What has been printed is marked as such. */
  ghost predicate Noted(emit: seq<EmitState>, fwd: seq<bool>, trace: seq<Event>) {
    && (forall x: Id :: Out(trace, x) ==> x < |emit| && emit[x] == Emitted)
    && (forall x: Id :: StructFwd(x) in trace ==> x < |fwd| && fwd[x])
  }

  lemma NotedMark(emit: seq<EmitState>, fwd: seq<bool>, trace: seq<Event>, x: Id, s: EmitState)
    requires Noted(emit, fwd, trace) && x < |emit| && (emit[x] != Emitted || s == Emitted)
    ensures Noted(emit[x := s], fwd, trace)
  {
  }

  lemma NotedPrinted(emit: seq<EmitState>, fwd: seq<bool>, trace: seq<Event>, e: Event)
    requires Noted(emit, fwd, trace) && e.id < |emit| && !e.StructFwd?
    ensures Noted(emit[e.id := Emitted], fwd, trace + [e])
  {
    forall x: Id | Out(trace + [e], x)
      ensures x < |emit| && (x == e.id || emit[x] == Emitted)
    {
      assert x == e.id || Out(trace, x);
    }
  }

  lemma NotedForward(emit: seq<EmitState>, fwd: seq<bool>, trace: seq<Event>, x: Id)
    requires Noted(emit, fwd, trace) && x < |fwd|
    ensures Noted(emit, fwd[x := true], trace + [StructFwd(x)])
  {
    assert forall y: Id :: Out(trace + [StructFwd(x)], y) ==> Out(trace, y);
  }

  /** What is not marked as printed may be printed. */
  lemma FirstTime(emit: seq<EmitState>, fwd: seq<bool>, trace: seq<Event>, e: Event)
    requires Noted(emit, fwd, trace) && e.id < |emit| == |fwd|
    requires if e.StructFwd? then !fwd[e.id] else emit[e.id] != Emitted
    ensures IsNew(trace, e)
  {
    assert !e.StructFwd? ==> !Out(trace, e.id);
  }

  lemma NothingNoted(emit: seq<EmitState>, fwd: seq<bool>)
    ensures Noted(emit, fwd, [])
  {
  }

  /** The states agree with what has been printed. */
  ghost predicate EmitInv(g: seq<BtfType>, builtin: set<Id>, emit: seq<EmitState>, fwd: seq<bool>, trace: seq<Event>)
    requires CyclesThroughComposites(g)
  {
    && |emit| == |fwd| == |g| && TraceOk(g, builtin, trace)
    && (forall x: Id :: x < |g| && fwd[x] ==> IsNamed(g[x]) && Declared(g, builtin, trace, x))
    && (forall x: Id :: x < |g| && emit[x] == Emitted && StandsAlone(g, x) ==> Defined(g, builtin, trace, x))
    && (forall x: Id :: x < |g| && emit[x] == Emitted ==> IsNamed(g[x]) || Parts(g, x) == [])
    && (forall x: Id :: x < |g| && emit[x] == Emitting ==> IsComposite(g[x].info.kind) || g[x].info.kind == Typedef)
  }

  /* No type is met while it is printed in place. */

  /** The enums and forward declarations that are done have been printed. */
  ghost predicate GroundOk(g: seq<BtfType>, builtin: set<Id>, trace: seq<Event>, ground: seq<Id>) {
    forall y ::
      y in ground && y < |g| && (g[y].info.kind == Enum || g[y].info.kind == Fwd) && StandsAlone(g, y) ==>
        Defined(g, builtin, trace, y)
  }

  /** The types being printed in place are all further from the ground than k. */
  ghost predicate Above(g: seq<BtfType>, emit: seq<EmitState>, ground: seq<Id>, k: nat)
    requires Closed(g)
  {
    forall y: Id :: y < |g| && y < |emit| && emit[y] == Emitting && Passes(g[y]) ==> !Grounded(g, ground, y, k)
  }

  /** The least number of steps in which printing x ends. */
  ghost function Height(g: seq<BtfType>, ground: seq<Id>, x: Id, k: nat): (h: nat)
    requires Closed(g) && Grounded(g, ground, x, k)
    ensures h <= k && Grounded(g, ground, x, h) && (h > 0 ==> !Grounded(g, ground, x, h - 1))
  {
    if k > 0 && Grounded(g, ground, x, k - 1) then Height(g, ground, x, k - 1) else k
  }

  /** While x is printed in place, what it is printed with is nearer to the ground. */
  lemma Enter(g: seq<BtfType>, emit: seq<EmitState>, ground: seq<Id>, x: Id, k: nat) returns (h: nat)
    requires Closed(g) && x < |g| == |emit| && Passes(g[x]) && Grounded(g, ground, x, k) && Above(g, emit, ground, k)
    ensures h < k && Above(g, emit, ground, h) && Above(g, emit[x := Emitting], ground, h)
    ensures !Grounded(g, ground, x, h)
    ensures forall i :: 0 <= i < |Parts(g, x)| ==> Grounded(g, ground, Parts(g, x)[i], h)
  {
    h := Height(g, ground, x, k) - 1;
    forall y: Id | y < |g| && !Grounded(g, ground, y, k)
      ensures !Grounded(g, ground, y, h)
    {
      if Grounded(g, ground, y, h) {
        GroundedGrows(g, ground, ground, y, h, k);
      }
    }
  }

  /** Printing changes nothing about that for what comes next. */
  lemma StillAbove(g: seq<BtfType>, builtin: set<Id>, emit: seq<EmitState>, trace: seq<Event>, later: seq<EmitState>,
                   trace': seq<Event>, ground: seq<Id>, k: nat)
    requires Closed(g) && Above(g, emit, ground, k) && GroundOk(g, builtin, trace, ground)
    requires EmitsTo(emit, trace, later, trace')
    ensures Above(g, later, ground, k) && GroundOk(g, builtin, trace', ground)
  {
    forall y | y in ground && y < |g|
      ensures Defined(g, builtin, trace, y) ==> Defined(g, builtin, trace', y)
    {
      StaysDeclared(g, builtin, trace, trace', y);
    }
  }

  /** What x reaches is no further from the ground than x. */
  lemma {:induction false} ReachesLower(g: seq<BtfType>, ground: seq<Id>, x: Id, y: Id, j: nat, k: nat)
    requires Closed(g) && Grounded(g, ground, x, k) && Reaches(g, x, y, j)
    ensures Grounded(g, ground, y, k)
    decreases j
  {
    if !IsNamed(g[x]) {
      var i :| 0 <= i < |Parts(g, x)| && Reaches(g, Parts(g, x)[i], y, j - 1);
      ReachesLower(g, ground, Parts(g, x)[i], y, j - 1, k - 1);
      GroundedGrows(g, ground, ground, y, k - 1, k);
    }
  }

  /** A typedef does not reach itself. */
  lemma NotItself(g: seq<BtfType>, builtin: set<Id>, trace: seq<Event>, ground: seq<Id>, x: Id, h: nat)
    requires Closed(g) && x < |g| && g[x].info.kind == Typedef && Target(g[x]) < |g|
    requires Covered(g, builtin, trace, Target(g[x]), x)
    requires Grounded(g, ground, Target(g[x]), h) && !Grounded(g, ground, x, h)
    ensures TypedefOk(g, builtin, trace, x)
  {
    forall y: Id, k: nat | y < |g| && Reaches(g, Target(g[x]), y, k)
      ensures y != x
    {
      ReachesLower(g, ground, Target(g[x]), y, k, h);
    }
  }

  /** More has been printed, and types in the middle of being printed are so still. */
  ghost predicate EmitsTo(emit: seq<EmitState>, trace: seq<Event>, emit': seq<EmitState>, trace': seq<Event>) {
    && |emit| == |emit'| && trace <= trace'
    && (forall x :: 0 <= x < |emit| ==> (emit[x] == Emitting <==> emit'[x] == Emitting))
    && (forall x :: 0 <= x < |emit| && emit[x] == Emitted ==> emit'[x] == Emitted)
  }

  lemma EmitsToTrans(e1: seq<EmitState>, t1: seq<Event>, e2: seq<EmitState>, t2: seq<Event>, e3: seq<EmitState>,
                     t3: seq<Event>)
    requires EmitsTo(e1, t1, e2, t2) && EmitsTo(e2, t2, e3, t3)
    ensures EmitsTo(e1, t1, e3, t3)
  {
  }

  /** What is declared stays declared. */
  lemma CoveredStays(g: seq<BtfType>, builtin: set<Id>, trace: seq<Event>, trace': seq<Event>, x: Id, cont: Id)
    requires Closed(g) && trace <= trace' && Covered(g, builtin, trace, x, cont)
    ensures Covered(g, builtin, trace', x, cont)
  {
    forall y: Id, k: nat | y < |g| && Reaches(g, x, y, k)
      ensures Declared(g, builtin, trace', y) || y == cont
    {
      StaysDeclared(g, builtin, trace, trace', y);
    }
  }

  lemma StaysDeclared(g: seq<BtfType>, builtin: set<Id>, trace: seq<Event>, trace': seq<Event>, y: Id)
    requires y < |g| && trace <= trace'
    ensures Declared(g, builtin, trace, y) ==> Declared(g, builtin, trace', y)
    ensures Defined(g, builtin, trace, y) ==> Defined(g, builtin, trace', y)
    ensures IsNamed(g[y]) && Defined(g, builtin, trace, y) ==> Declared(g, builtin, trace, y)
  {
  }

  /** A name is covered by being declared. */
  lemma NameCovered(g: seq<BtfType>, builtin: set<Id>, trace: seq<Event>, x: Id, cont: Id)
    requires Closed(g) && x < |g| && IsNamed(g[x]) && (Declared(g, builtin, trace, x) || x == cont)
    ensures Covered(g, builtin, trace, x, cont)
  {
  }

  /** Anything else is covered if its parts are. */
  lemma PartsCovered(g: seq<BtfType>, builtin: set<Id>, trace: seq<Event>, x: Id, cont: Id)
    requires Closed(g) && x < |g| && !IsNamed(g[x])
    requires forall i :: 0 <= i < |Parts(g, x)| ==> Covered(g, builtin, trace, Parts(g, x)[i], cont)
    ensures Covered(g, builtin, trace, x, cont)
  {
    forall y: Id, k: nat | y < |g| && Reaches(g, x, y, k)
      ensures Declared(g, builtin, trace, y) || y == cont
    {
      var i :| 0 <= i < |Parts(g, x)| && Reaches(g, Parts(g, x)[i], y, k - 1);
      assert Covered(g, builtin, trace, Parts(g, x)[i], cont);
    }
  }

  /** One more declaration, a definition only when it is in order. */
  lemma Printed(g: seq<BtfType>, builtin: set<Id>, emit: seq<EmitState>, fwd: seq<bool>, trace: seq<Event>, e: Event)
    requires CyclesThroughComposites(g) && EmitInv(g, builtin, emit, fwd, trace)
    requires EventOk(g, builtin, trace, e)
    ensures EmitInv(g, builtin, emit, fwd, trace + [e]) && EmitsTo(emit, trace, emit, trace + [e])
  {
    var trace' := trace + [e];
    forall i | 0 <= i < |trace'|
      ensures EventOk(g, builtin, trace'[..i], trace'[i])
    {
      assert i < |trace| ==> trace'[..i] == trace[..i];
      assert i == |trace| ==> trace'[..i] == trace;
    }
    forall x: Id | x < |g|
      ensures Declared(g, builtin, trace, x) ==> Declared(g, builtin, trace', x)
      ensures Defined(g, builtin, trace, x) ==> Defined(g, builtin, trace', x)
    {
      StaysDeclared(g, builtin, trace, trace', x);
    }
  }

  /** Entering and leaving a type, and noting its forward declaration. */
  lemma Marked(g: seq<BtfType>, builtin: set<Id>, emit: seq<EmitState>, fwd: seq<bool>, trace: seq<Event>, x: Id,
               s: EmitState)
    requires CyclesThroughComposites(g) && EmitInv(g, builtin, emit, fwd, trace) && x < |g|
    requires s == Emitting ==> IsComposite(g[x].info.kind) || g[x].info.kind == Typedef
    requires s == Emitted ==>
               (StandsAlone(g, x) ==> Defined(g, builtin, trace, x)) && (IsNamed(g[x]) || Parts(g, x) == [])
    ensures EmitInv(g, builtin, emit[x := s], fwd, trace)
  {
  }

  lemma Forwarded(g: seq<BtfType>, builtin: set<Id>, emit: seq<EmitState>, fwd: seq<bool>, trace: seq<Event>, x: Id)
    requires CyclesThroughComposites(g) && EmitInv(g, builtin, emit, fwd, trace) && x < |g| && IsNamed(g[x])
    requires Declared(g, builtin, trace, x)
    ensures EmitInv(g, builtin, emit, fwd[x := true], trace)
  {
  }

  lemma Sizes(g: seq<BtfType>, builtin: set<Id>, emit: seq<EmitState>, fwd: seq<bool>, trace: seq<Event>)
    requires CyclesThroughComposites(g) && EmitInv(g, builtin, emit, fwd, trace)
    ensures |emit| == |fwd| == |g| > 0 && Closed(g) && g[0] == VOID
  {
  }

  /** A typedef that has been printed, as a forward declaration too, is defined. */
  lemma TypedefPrinted(g: seq<BtfType>, builtin: set<Id>, emit: seq<EmitState>, fwd: seq<bool>, trace: seq<Event>,
                       x: Id)
    requires CyclesThroughComposites(g) && EmitInv(g, builtin, emit, fwd, trace) && x < |g| == |fwd|
    requires g[x].info.kind == Typedef
    requires fwd[x] || x in builtin || TypedefDef(x) in trace || TypedefAhead(x) in trace
    ensures Defined(g, builtin, trace, x)
  {
  }

  /** An enum or forward declaration is printed before it is used. */
  lemma GroundPrinted(g: seq<BtfType>, builtin: set<Id>, trace: seq<Event>, ground: seq<Id>, x: Id, k: nat)
    requires Closed(g) && x < |g| && (g[x].info.kind == Enum || g[x].info.kind == Fwd)
    requires GroundOk(g, builtin, trace, ground) && Grounded(g, ground, x, k)
    ensures StandsAlone(g, x) ==> Defined(g, builtin, trace, x)
  {
  }

  /** A type of no interest to C reaches nothing. */
  lemma NothingReached(g: seq<BtfType>, builtin: set<Id>, trace: seq<Event>, x: Id, cont: Id)
    requires Closed(g) && x < |g| && !IsNamed(g[x]) && Parts(g, x) == []
    ensures Covered(g, builtin, trace, x, cont)
  {
    PartsCovered(g, builtin, trace, x, cont);
  }

  lemma EmitStart(emit: seq<EmitState>, trace: seq<Event>)
    ensures EmitsTo(emit, trace, emit, trace)
  {
  }

  /** Leaving what was entered: nobody sees that it was in progress. */
  lemma Left(emit: seq<EmitState>, trace: seq<Event>, later: seq<EmitState>, trace': seq<Event>, x: Id, s: EmitState)
    requires x < |emit| && emit[x] == NotEmitted && EmitsTo(emit[x := Emitting], trace, later, trace') && s != Emitting
    ensures EmitsTo(emit, trace, later[x := s], trace')
  {
    assert emit[x := Emitting][x] == Emitting;
  }

  lemma Done(emit: seq<EmitState>, trace: seq<Event>, later: seq<EmitState>, trace': seq<Event>, x: Id)
    requires x < |emit| && emit[x] == NotEmitted && EmitsTo(emit, trace, later, trace')
    ensures EmitsTo(emit, trace, later[x := Emitted], trace')
  {
  }

  /** The first n parts of a type are covered. */
  ghost predicate CoveredTo(g: seq<BtfType>, builtin: set<Id>, trace: seq<Event>, x: Id, n: nat, cont: Id)
    requires Closed(g) && x < |g|
  {
    forall i :: 0 <= i < n && i < |Parts(g, x)| ==> Covered(g, builtin, trace, Parts(g, x)[i], cont)
  }

  lemma NoneCovered(g: seq<BtfType>, builtin: set<Id>, trace: seq<Event>, x: Id, cont: Id)
    requires Closed(g) && x < |g|
    ensures CoveredTo(g, builtin, trace, x, 0, cont)
  {
  }

  lemma OneMoreCovered(g: seq<BtfType>, builtin: set<Id>, emit: seq<EmitState>, trace: seq<Event>,
                       later: seq<EmitState>, trace': seq<Event>, x: Id, n: nat, cont: Id)
    requires Closed(g) && x < |g| && n < |Parts(g, x)| && EmitsTo(emit, trace, later, trace')
    requires CoveredTo(g, builtin, trace, x, n, cont) && Covered(g, builtin, trace', Parts(g, x)[n], cont)
    ensures CoveredTo(g, builtin, trace', x, n + 1, cont)
  {
    forall i | 0 <= i < n
      ensures Covered(g, builtin, trace', Parts(g, x)[i], cont)
    {
      CoveredStays(g, builtin, trace, trace', Parts(g, x)[i], cont);
    }
  }

  lemma AllPartsCovered(g: seq<BtfType>, builtin: set<Id>, trace: seq<Event>, x: Id, cont: Id)
    requires Closed(g) && x < |g| && !IsNamed(g[x]) && CoveredTo(g, builtin, trace, x, |Parts(g, x)|, cont)
    ensures Covered(g, builtin, trace, x, cont)
  {
    PartsCovered(g, builtin, trace, x, cont);
  }

  /** What is printed already is covered. */
  lemma EmittedCovered(g: seq<BtfType>, builtin: set<Id>, emit: seq<EmitState>, fwd: seq<bool>, trace: seq<Event>,
                       x: Id, cont: Id)
    requires CyclesThroughComposites(g) && EmitInv(g, builtin, emit, fwd, trace) && x < |g| && emit[x] == Emitted
    ensures Covered(g, builtin, trace, x, cont) && (StandsAlone(g, x) ==> Defined(g, builtin, trace, x))
  {
    if IsNamed(g[x]) {
      NameCovered(g, builtin, trace, x, cont);
    }
  }

  lemma OnePart(g: seq<BtfType>, builtin: set<Id>, trace: seq<Event>, x: Id, cont: Id)
    requires Closed(g) && x < |g| && !IsNamed(g[x]) && |Parts(g, x)| == 1
    requires Covered(g, builtin, trace, Parts(g, x)[0], cont)
    ensures Covered(g, builtin, trace, x, cont)
  {
    PartsCovered(g, builtin, trace, x, cont);
  }

  /** All named types that s embeds are defined. */
  ghost predicate EmbeddedDefined(g: seq<BtfType>, builtin: set<Id>, trace: seq<Event>, s: Id)
    requires CyclesThroughComposites(g)
  {
    forall y: Id, k: nat :: y < |g| && IsNamed(g[y]) && Embeds(g, s, y, k) ==> Defined(g, builtin, trace, y)
  }

  /** A typedef of an array, under whatever modifiers. */
  ghost predicate NamesArray(g: seq<BtfType>, x: Id)
    requires CyclesThroughComposites(g) && x < |g|
    decreases Rank(g, x)
  {
    PartsInside(g, x);
    match g[x].info.kind
    case Volatile | Const | Restrict | Typedef => NamesArray(g, Parts(g, x)[0])
    case Array => true
    case _ => false
  }

  /** C takes the typedef: what it reaches is declared, and elements of an array are complete. */
  ghost predicate TypedefLegal(g: seq<BtfType>, builtin: set<Id>, trace: seq<Event>, x: Id)
    requires CyclesThroughComposites(g) && x < |g|
  {
    TypedefOk(g, builtin, trace, x) && (NamesArray(g, x) ==> EmbeddedDefined(g, builtin, trace, x))
  }

  /** A typedef is legal where it is printed if that is its own turn, or if it is
      not one of an array; one of an array that is printed ahead exactly if all its
      elements embed has been printed. */
  lemma PrintedTypedefs(g: seq<BtfType>, builtin: set<Id>, trace: seq<Event>, i: nat, x: Id)
    requires CyclesThroughComposites(g) && TraceOk(g, builtin, trace) && i < |trace| && x < |g|
    ensures trace[i] == TypedefDef(x) ==> TypedefLegal(g, builtin, trace[..i], x)
    ensures trace[i] == TypedefAhead(x) ==>
              (TypedefLegal(g, builtin, trace[..i], x) <==>
               (NamesArray(g, x) ==> EmbeddedDefined(g, builtin, trace[..i], x)))
  {
    hide EmbeddedDefined, NamesArray, TypedefOk;
    assert EventOk(g, builtin, trace[..i], trace[i]);
  }

  /** What is embedded stays defined. */
  lemma EmbeddedStays(g: seq<BtfType>, builtin: set<Id>, emit: seq<EmitState>, trace: seq<Event>, later: seq<EmitState>,
                      trace': seq<Event>, x: Id)
    requires CyclesThroughComposites(g) && EmitsTo(emit, trace, later, trace') && EmbeddedDefined(g, builtin, trace, x)
    ensures EmbeddedDefined(g, builtin, trace', x)
  {
    forall y: Id, k: nat | y < |g| && IsNamed(g[y]) && Embeds(g, x, y, k)
      ensures Defined(g, builtin, trace', y)
    {
      StaysDeclared(g, builtin, trace, trace', y);
    }
  }

  /** A definition is in order once its members are covered. */
  lemma DefinitionReady(g: seq<BtfType>, builtin: set<Id>, emit: seq<EmitState>, trace: seq<Event>,
                        later: seq<EmitState>, trace': seq<Event>, s: Id)
    requires CyclesThroughComposites(g) && s < |g| && IsComposite(g[s].info.kind) && EmitsTo(emit, trace, later, trace')
    requires EmbeddedDefined(g, builtin, trace, s) && CoveredTo(g, builtin, trace', s, |Parts(g, s)|, s)
    ensures DefinitionOk(g, builtin, trace', s)
  {
    EmbeddedStays(g, builtin, emit, trace, later, trace', s);
  }
}
