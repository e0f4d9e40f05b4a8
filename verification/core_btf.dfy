/** Types as CO-RE relocations look at them (eBPF_app/libbpf/src/libbpf.c, btf.c). */
module CoreBtf {
  import opened BtfTypes
  import opened BtfStrings
  import opened Results
  import opened Words

  const U32_MAX: nat := 0xffff_ffff
  const MAX_RESOLVE_DEPTH: nat := 32
  const POINTER_SIZE: nat := 8

  datatype Btf = Btf(types: seq<BtfType>, strs: seq<char>)

  /** Modifiers and typedefs. */
  predicate IsSkipped(k: Kind) {
    k in {Volatile, Const, Restrict, Typedef}
  }

  /** Ranks that fall along modifiers, typedefs and array elements. */
  ghost predicate Ranked(g: seq<BtfType>, rank: seq<nat>)
    requires Closed(g)
  {
    && |rank| == |g|
    && forall x :: 0 <= x < |g| ==> NextBelow(g, rank, x)
  }

  ghost predicate NextBelow(g: seq<BtfType>, rank: seq<nat>, x: Id)
    requires Closed(g) && |rank| == |g| && x < |g|
  {
    InnerInside(g, x);
    (IsSkipped(g[x].info.kind) || g[x].info.kind == Array) ==> rank[Inner(g, x)] < rank[x]
  }

  /** What a modifier, typedef or array is made of. */
  function Inner(g: seq<BtfType>, x: Id): Id
    requires x < |g| && WellFormed(g[x])
  {
    if g[x].info.kind == Array then g[x].payload.elem else g[x].size
  }

  lemma InnerInside(g: seq<BtfType>, x: Id)
    requires Closed(g) && x < |g|
    ensures IsSkipped(g[x].info.kind) || g[x].info.kind == Array || g[x].info.kind == Var ==> Inner(g, x) < |g|
  {
    if IsSkipped(g[x].info.kind) || g[x].info.kind == Array || g[x].info.kind == Var {
      assert Refs(g[x])[0] == Inner(g, x);
    }
  }

  lemma MemberInside(g: seq<BtfType>, x: Id, i: nat)
    requires Closed(g) && x < |g| && IsComposite(g[x].info.kind) && i < |g[x].payload.members|
    ensures g[x].payload.members[i].typ < |g|
  {
    assert Refs(g[x])[i] == g[x].payload.members[i].typ;
  }

  /** No endless chain of modifiers, typedefs and arrays. */
  ghost predicate Grounded(g: seq<BtfType>)
    requires Closed(g)
  {
    exists rank :: Ranked(g, rank)
  }

  ghost predicate Valid(b: Btf) {
    && Closed(b.types) && Grounded(b.types)
    && b.strs != [] && b.strs[0] == NUL && b.strs[|b.strs| - 1] == NUL
  }

  ghost function Ranking(g: seq<BtfType>): (rank: seq<nat>)
    requires Closed(g) && Grounded(g)
    ensures Ranked(g, rank)
  {
    var rank :| Ranked(g, rank);
    rank
  }

  ghost function Rank(g: seq<BtfType>, x: Id): nat
    requires Closed(g) && Grounded(g) && x < |g|
  {
    Ranking(g)[x]
  }

  lemma RankFalls(g: seq<BtfType>, x: Id)
    requires Closed(g) && Grounded(g) && x < |g|
    ensures IsSkipped(g[x].info.kind) || g[x].info.kind == Array ==>
              Inner(g, x) < |g| && Rank(g, Inner(g, x)) < Rank(g, x)
  {
    InnerInside(g, x);
    assert NextBelow(g, Ranking(g), x);
  }

  /** What is left of a type without modifiers and typedefs. */
  ghost function Skip(g: seq<BtfType>, id: Id): (r: Id)
    requires Closed(g) && Grounded(g) && id < |g|
    ensures r < |g| && !IsSkipped(g[r].info.kind) && Rank(g, r) <= Rank(g, id)
    decreases Rank(g, id)
  {
    RankFalls(g, id);
    if IsSkipped(g[id].info.kind) then Skip(g, Inner(g, id)) else id
  }

  lemma SkipTwice(g: seq<BtfType>, id: Id)
    requires Closed(g) && Grounded(g) && id < |g|
    ensures Skip(g, Skip(g, id)) == Skip(g, id)
  {
  }

  /** From x, n modifiers and typedefs lead to y, which is neither. */
  ghost predicate Peels(g: seq<BtfType>, x: Id, y: Id, n: nat)
    decreases n
  {
    && x < |g|
    && if g[x].info.kind in {Volatile, Const, Restrict, Typedef} then n > 0 && Peels(g, g[x].size, y, n - 1)
       else n == 0 && y == x
  }

  /** What is left is where the chain of modifiers and typedefs ends. */
  lemma {:induction false} SkipPeels(g: seq<BtfType>, id: Id) returns (n: nat)
    requires Closed(g) && Grounded(g) && id < |g|
    ensures forall y: Id, k: nat :: Peels(g, id, y, k) <==> y == Skip(g, id) && k == n
    decreases Rank(g, id)
  {
    RankFalls(g, id);
    n := 0;
    if IsSkipped(g[id].info.kind) {
      var m := SkipPeels(g, Inner(g, id));
      n := m + 1;
    }
  }

  /** skip_mods_and_typedefs. */
  method SkipModsAndTypedefs(g: seq<BtfType>, id: Id) returns (r: Id)
    requires Closed(g) && Grounded(g) && id < |g|
    ensures r == Skip(g, id)
  {
    r := id;
    while IsSkipped(g[r].info.kind)
      invariant r < |g| && Skip(g, r) == Skip(g, id)
      decreases Rank(g, r)
    {
      RankFalls(g, r);
      r := g[r].size;
    }
  }

  /* Sizes. */

  /** A base size times the number of elements, if that fits 32 bits. */
  function Scaled(nelems: nat, size: nat): Result<nat> {
    if nelems > 0 && size > U32_MAX / nelems then TooBig else Ok(nelems * size)
  }

  /** What the size of a type rests on. */
  datatype Sizing = Base(size: nat) | Same | Times(nelems: nat) | Unsized

  function SizingOf(g: seq<BtfType>, id: Id): Sizing
    requires id < |g| && WellFormed(g[id])
  {
    if id == 0 then Unsized
    else match g[id].info.kind
         case Int | Struct | Union | Enum | DataSec => Base(g[id].size)
         case Ptr => Base(POINTER_SIZE)
         case Typedef | Volatile | Const | Restrict | Var => Same
         case Array => Times(g[id].payload.nelems)
         case _ => Unsized
  }

  /** The size of a type, counting the elements met so far, within some depth. */
  function SizeFrom(g: seq<BtfType>, id: Id, depth: nat, nelems: nat): (r: Result<nat>)
    requires Closed(g) && id < |g|
    decreases depth
  {
    InnerInside(g, id);
    if depth == 0 then Invalid
    else match SizingOf(g, id)
         case Base(size) => Scaled(nelems, size)
         case Same => SizeFrom(g, Inner(g, id), depth - 1, nelems)
         case Times(n) =>
           if nelems > 0 && n > U32_MAX / nelems then TooBig
           else SizeFrom(g, Inner(g, id), depth - 1, nelems * n)
         case Unsized => Invalid
  }

  function ResolvedSize(g: seq<BtfType>, id: Id): (r: Result<nat>)
    requires Closed(g) && id < |g|
  {
    SizeFrom(g, id, MAX_RESOLVE_DEPTH, 1)
  }

  /** The size as such: that of an array is the number of elements times the
      size of one. */
  function TrueSize(g: seq<BtfType>, id: Id, depth: nat): (r: Result<nat>)
    requires Closed(g) && id < |g|
    decreases depth
  {
    InnerInside(g, id);
    if depth == 0 then Invalid
    else match SizingOf(g, id)
         case Base(size) => Ok(size)
         case Same => TrueSize(g, Inner(g, id), depth - 1)
         case Times(n) =>
           (match TrueSize(g, Inner(g, id), depth - 1)
            case Ok(size) => Ok(n * size)
            case e => e)
         case Unsized => Invalid
  }

  /** The checks of the running product are exact: the size is computed when it
      fits 32 bits and is not 0, and what is computed is the size. */
  lemma {:induction false} SizeIsTrue(g: seq<BtfType>, id: Id, depth: nat, nelems: nat)
    requires Closed(g) && id < |g|
    ensures var r, s := SizeFrom(g, id, depth, nelems), TrueSize(g, id, depth);
            && (r.Ok? ==> s.Ok? && r.value == nelems * s.value && (nelems <= U32_MAX ==> r.value <= U32_MAX))
            && (s.Ok? && 0 < nelems * s.value <= U32_MAX ==> r.Ok?)
    decreases depth
  {
    InnerInside(g, id);
    if depth > 0 {
      match SizingOf(g, id)
      case Base(size) =>
        Fits(nelems, size);
      case Same =>
        SizeIsTrue(g, Inner(g, id), depth - 1, nelems);
      case Times(n) =>
        Fits(nelems, n);
        SizeIsTrue(g, Inner(g, id), depth - 1, nelems * n);
        var s := TrueSize(g, Inner(g, id), depth - 1);
        if s.Ok? {
          Products(nelems, n, s.value);
        }
      case Unsized =>
    }
  }

  lemma Products(m: nat, n: nat, s: nat)
    ensures m * (n * s) == m * n * s
    ensures m * n * s > 0 ==> m > 0 && n > 0 && s > 0 && m * n <= m * n * s
  {
    assert m == 0 || n == 0 || s == 0 ==> m * n * s == 0;
    assert s >= 1 ==> m * n * s == m * n + m * n * (s - 1);
  }

  lemma Fits(n: nat, size: nat)
    ensures n > 0 ==> (size <= U32_MAX / n <==> n * size <= U32_MAX)
  {
    if n > 0 {
      var q := U32_MAX / n;
      assert U32_MAX == q * n + U32_MAX % n;
      assert size <= q ==> size * n <= q * n;
      assert size >= q + 1 ==> size * n >= (q + 1) * n == q * n + n;
    }
  }

  /** btf__resolve_size. */
  method ResolveSize(g: seq<BtfType>, id: Id) returns (r: Result<nat>)
    requires Closed(g) && id < |g|
    ensures r == ResolvedSize(g, id)
  {
    var typeId: Id, nelems: nat := id, 1;
    for i := 0 to MAX_RESOLVE_DEPTH
      invariant typeId < |g| && SizeFrom(g, typeId, MAX_RESOLVE_DEPTH - i, nelems) == ResolvedSize(g, id)
    {
      InnerInside(g, typeId);
      if typeId == 0 || g[typeId].info.kind == Fwd {
        return Invalid;
      }
      match g[typeId].info.kind
      case Int | Struct | Union | Enum | DataSec =>
        return Scaled(nelems, g[typeId].size);
      case Ptr =>
        return Scaled(nelems, POINTER_SIZE);
      case Typedef | Volatile | Const | Restrict | Var =>
        typeId := g[typeId].size;
      case Array =>
        var n := g[typeId].payload.nelems;
        if nelems > 0 && n > U32_MAX / nelems {
          return TooBig;
        }
        nelems := nelems * n;
        typeId := g[typeId].payload.elem;
      case _ =>
        return Invalid;
    }
    r := Invalid;
  }

  /* Names. */

  /** btf__name_by_offset; no name is like an empty one. */
  function Name(b: Btf, off: nat): string {
    Text(b.strs, off)
  }

  /** bpf_core_is_flavor_sep: X___Y, where X and Y are not underscores; the text
      is followed by NUL. */
  predicate IsFlavorSep(s: string, i: nat) {
    && i + 4 < |s| && s[i] != '_' && s[i + 1] == '_' && s[i + 2] == '_' && s[i + 3] == '_' && s[i + 4] != '_'
  }

  /** bpf_core_essential_name_len: the name up to its last flavor separator. */
  method EssentialNameLen(name: string) returns (n: nat)
    ensures n == EssentialLen(name)
  {
    var i := |name| - 5;
    while i >= 0
      invariant i <= |name| - 5 && LastSep(name, i) == LastSep(name, |name| - 5)
    {
      if IsFlavorSep(name, i) {
        return i + 1;
      }
      i := i - 1;
    }
    n := |name|;
  }

  /** The last separator at or before i, or -1. */
  function LastSep(name: string, i: int): (r: int)
    ensures r == -1 || 0 <= r <= i
    ensures r >= 0 ==> IsFlavorSep(name, r)
    ensures forall j: nat :: r < j <= i ==> !IsFlavorSep(name, j)
  {
    if i < 0 then -1 else if IsFlavorSep(name, i) then i else LastSep(name, i - 1)
  }

  function EssentialLen(name: string): (n: nat)
    ensures n <= |name|
  {
    var r := LastSep(name, |name| - 5);
    if r < 0 then |name| else r + 1
  }

  /** The part of a name that counts. */
  function Essential(name: string): string {
    name[..EssentialLen(name)]
  }

  lemma SepInSuffix(s: string, from: nat, i: nat)
    requires from <= |s|
    ensures IsFlavorSep(s, from + i) <==> IsFlavorSep(s[from..], i)
  {
    var r := s[from..];
    if i + 4 < |r| {
      assert r[i] == s[from + i] && r[i + 1] == s[from + i + 1] && r[i + 2] == s[from + i + 2];
      assert r[i + 3] == s[from + i + 3] && r[i + 4] == s[from + i + 4];
    }
  }

  /** A flavor is ignored. */
  lemma FlavorIgnored(name: string, flavor: string)
    requires name != [] && name[|name| - 1] != '_' && flavor != [] && flavor[0] != '_'
    requires forall i: nat :: !IsFlavorSep(flavor, i)
    ensures Essential(name + "___" + flavor) == name
  {
    var s, k := name + "___" + flavor, |name| - 1;
    assert s[k + 1..k + 4] == "___";
    assert s[k + 1] == s[k + 1..k + 4][0] && s[k + 2] == s[k + 1..k + 4][1] && s[k + 3] == s[k + 1..k + 4][2];
    assert IsFlavorSep(s, k);
    forall i: nat | k < i
      ensures !IsFlavorSep(s, i)
    {
      if i >= |name| + 3 {
        assert s[|name| + 3..] == flavor;
        SepInSuffix(s, |name| + 3, i - (|name| + 3));
      }
    }
    assert s[..|name|] == name;
  }

  /** The name is in two parts, between them exactly three underscores. */
  ghost predicate InParts(name: string, a: string, c: string) {
    && a != "" && a[|a| - 1] != '_' && c != "" && c[0] != '_'
    && name == a + "___" + c
  }

  ghost predicate InOnePart(name: string) {
    forall a: string, c: string :: !InParts(name, a, c)
  }

  /** A name is its base, or the base with one flavor behind it. */
  ghost predicate HasBase(name: string, base: string) {
    (name == base && InOnePart(name)) || exists flavor: string :: InParts(name, base, flavor) && InOnePart(flavor)
  }

  lemma SepSplits(name: string, i: nat)
    ensures IsFlavorSep(name, i) ==> InParts(name, name[..i + 1], name[i + 4..])
    ensures forall a: string, c: string :: InParts(name, a, c) && |a| == i + 1 ==> IsFlavorSep(name, i)
  {
    if IsFlavorSep(name, i) {
      assert name[i + 1..i + 4] == "___";
      assert name == name[..i + 1] + name[i + 1..i + 4] + name[i + 4..];
    }
    forall a: string, c: string | InParts(name, a, c) && |a| == i + 1
      ensures IsFlavorSep(name, i)
    {
      assert name[i + 1..i + 4] == "___" && name[..i + 1] == a && name[i + 4..] == c;
      assert name[i + 1] == name[i + 1..i + 4][0];
      assert name[i + 2] == name[i + 1..i + 4][1] && name[i + 3] == name[i + 1..i + 4][2];
      assert name[i] == a[i] && name[i + 4] == c[0];
    }
  }

  lemma OnePartIs(name: string)
    ensures InOnePart(name) <==> forall i: nat :: !IsFlavorSep(name, i)
  {
    forall i: nat
      ensures IsFlavorSep(name, i) ==> !InOnePart(name)
    {
      SepSplits(name, i);
    }
    forall a: string, c: string | InParts(name, a, c)
      ensures IsFlavorSep(name, |a| - 1)
    {
      SepSplits(name, |a| - 1);
    }
  }

  lemma HasItsBase(name: string)
    ensures HasBase(name, Essential(name))
  {
    var r := LastSep(name, |name| - 5);
    OnePartIs(name);
    if r < 0 {
      assert Essential(name) == name;
    } else {
      var flavor := name[r + 4..];
      SepSplits(name, r);
      OnePartIs(flavor);
      forall i: nat
        ensures !IsFlavorSep(flavor, i)
      {
        SepInSuffix(name, r + 4, i);
      }
      assert InParts(name, Essential(name), flavor) && InOnePart(flavor);
    }
  }

  lemma OnlyBase(name: string, base: string)
    requires HasBase(name, base)
    ensures base == Essential(name)
  {
    OnePartIs(name);
    if flavor: string :| InParts(name, base, flavor) && InOnePart(flavor) {
      OnePartIs(flavor);
      FlavorIgnored(base, flavor);
    } else {
      assert LastSep(name, |name| - 5) < 0 && name[..|name|] == name;
    }
  }

  /** Every name has one base, the part of it that counts. */
  lemma BaseIsEssential(name: string, base: string)
    ensures HasBase(name, base) <==> base == Essential(name)
  {
    hide HasBase, Essential;
    HasItsBase(name);
    if HasBase(name, base) {
      OnlyBase(name, base);
    }
  }

  /* Compatible fields. */

  /** BTF_INT_OFFSET. */
  function IntOffset(bits: nat): nat {
    bits / 0x10000 % 0x100
  }

  /** One of the names is empty, or they are the same up to a flavor. */
  predicate SameFlavored(x: string, y: string) {
    Essential(x) == "" || Essential(y) == "" || Essential(x) == Essential(y)
  }

  /** Which fields may stand for each other. */
  ghost predicate Compatible(l: Btf, x: Id, t: Btf, y: Id)
    requires Valid(l) && Valid(t) && x < |l.types| && y < |t.types|
    decreases Rank(l.types, x)
  {
    var a, b := Skip(l.types, x), Skip(t.types, y);
    var lt, tt := l.types[a], t.types[b];
    RankFalls(l.types, a);
    RankFalls(t.types, b);
    if IsComposite(lt.info.kind) && IsComposite(tt.info.kind) then true
    else if lt.info.kind != tt.info.kind then false
    else match lt.info.kind
         case Ptr => true
         case Fwd | Enum => SameFlavored(Name(l, lt.nameOff), Name(t, tt.nameOff))
         case Int => IntOffset(lt.payload.bits) == 0 && IntOffset(tt.payload.bits) == 0
         case Array => Compatible(l, Inner(l.types, a), t, Inner(t.types, b))
         case _ => false
  }

  /** Two enums or two forward declarations may stand for each other exactly if one has
      no name, or both have the same base. */
  lemma BasesDecide(l: Btf, x: Id, t: Btf, y: Id, p: string, q: string)
    requires Valid(l) && Valid(t) && x < |l.types| && y < |t.types|
    requires var a, b := l.types[Skip(l.types, x)], t.types[Skip(t.types, y)];
             && a.info.kind == b.info.kind && (a.info.kind == Enum || a.info.kind == Fwd)
             && HasBase(Name(l, a.nameOff), p) && HasBase(Name(t, b.nameOff), q)
    ensures Compatible(l, x, t, y) <==> p == "" || q == "" || p == q
  {
    hide HasBase, Essential, Name;
    BaseIsEssential(Name(l, l.types[Skip(l.types, x)].nameOff), p);
    BaseIsEssential(Name(t, t.types[Skip(t.types, y)].nameOff), q);
  }

  /** Two integers may exactly if neither starts within its storage, in bits 16 to 23 of
      the word behind the record. */
  lemma OffsetsDecide(l: Btf, x: Id, t: Btf, y: Id, e: nat, o: nat, n: nat, f: nat, p: nat, m: nat)
    requires Valid(l) && Valid(t) && x < |l.types| && y < |t.types|
    requires o < 0x100 && n < 0x1_0000 && p < 0x100 && m < 0x1_0000
    requires var a, b := l.types[Skip(l.types, x)], t.types[Skip(t.types, y)];
             && a.info.kind == Int && a.payload == IntData(e * 0x100_0000 + o * 0x1_0000 + n)
             && b.info.kind == Int && b.payload == IntData(f * 0x100_0000 + p * 0x1_0000 + m)
    ensures Compatible(l, x, t, y) <==> o == 0 && p == 0
  {
    PackedOffset(e, o, n);
    PackedOffset(f, p, m);
    hide IntOffset;
  }

  lemma PackedOffset(encoding: nat, offset: nat, bits: nat)
    requires offset < 0x100 && bits < 0x1_0000
    ensures IntOffset(encoding * 0x100_0000 + offset * 0x1_0000 + bits) == offset
  {
  }

  /** bpf_core_fields_are_compat, with its jump back to the start as a loop. */
  method FieldsAreCompat(l: Btf, localId: Id, t: Btf, targId: Id) returns (compat: bool)
    requires Valid(l) && Valid(t) && localId < |l.types| && targId < |t.types|
    ensures compat == Compatible(l, localId, t, targId)
  {
    var x: Id, y: Id := localId, targId;
    while true
      invariant x < |l.types| && y < |t.types| && Compatible(l, x, t, y) == Compatible(l, localId, t, targId)
      decreases Rank(l.types, x)
    {
      var a := SkipModsAndTypedefs(l.types, x);
      var b := SkipModsAndTypedefs(t.types, y);
      var lt, tt := l.types[a], t.types[b];
      RankFalls(l.types, a);
      RankFalls(t.types, b);
      if IsComposite(lt.info.kind) && IsComposite(tt.info.kind) {
        return true;
      }
      if lt.info.kind != tt.info.kind {
        return false;
      }
      match lt.info.kind
      case Ptr =>
        return true;
      case Fwd | Enum =>
        var localLen := EssentialNameLen(Name(l, lt.nameOff));
        var targLen := EssentialNameLen(Name(t, tt.nameOff));
        return localLen == 0 || targLen == 0 ||
          (localLen == targLen && Name(l, lt.nameOff)[..localLen] == Name(t, tt.nameOff)[..targLen]);
      case Int =>
        return IntOffset(lt.payload.bits) == 0 && IntOffset(tt.payload.bits) == 0;
      case Array =>
        x, y := lt.payload.elem, tt.payload.elem;
      case _ =>
        return false;
    }
  }

  /** What a relocated field may be made of. */
  ghost predicate Relocatable(b: Btf, x: Id)
    requires Valid(b) && x < |b.types|
    decreases Rank(b.types, x)
  {
    var r := Skip(b.types, x);
    RankFalls(b.types, r);
    match b.types[r].info.kind
    case Struct | Union | Ptr | Fwd | Enum => true
    case Int => IntOffset(b.types[r].payload.bits) == 0
    case Array => Relocatable(b, Inner(b.types, r))
    case _ => false
  }

  /** A field is compatible with itself exactly if it can be relocated at all. */
  lemma {:induction false} SelfCompatible(b: Btf, x: Id)
    requires Valid(b) && x < |b.types|
    ensures Compatible(b, x, b, x) <==> Relocatable(b, x)
    decreases Rank(b.types, x)
  {
    var r := Skip(b.types, x);
    RankFalls(b.types, r);
    if b.types[r].info.kind == Array {
      SelfCompatible(b, Inner(b.types, r));
    }
  }

  /** Compatibility does not depend on which side is the program's. */
  lemma {:induction false} CompatibleSymmetric(l: Btf, x: Id, t: Btf, y: Id)
    requires Valid(l) && Valid(t) && x < |l.types| && y < |t.types|
    ensures Compatible(l, x, t, y) <==> Compatible(t, y, l, x)
    decreases Rank(l.types, x)
  {
    var a, b := Skip(l.types, x), Skip(t.types, y);
    RankFalls(l.types, a);
    RankFalls(t.types, b);
    if l.types[a].info.kind == Array && t.types[b].info.kind == Array {
      CompatibleSymmetric(l, Inner(l.types, a), t, Inner(t.types, b));
    }
  }
}
