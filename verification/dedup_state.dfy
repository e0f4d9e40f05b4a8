/** What holds of the canonical map, the types and the candidate index
    between any two steps of btf__dedup. */
module DedupState {
  import opened BtfTypes
  import opened BtfCompare
  import opened CanonMap
  import opened HashMaps

  type Filing = Entry<nat, Id>

  /** A snapshot: the types as given, the types as rewritten so far, the
      canonical map, and the entries of the candidate index. */
  datatype State = State(input: seq<BtfType>, types: seq<BtfType>, canon: Links,
                         filed: multiset<Filing>, resolveFwds: bool)

  /** The kind a type has once forward declarations are read as what they announce. */
  function Family(t: BtfType): Kind {
    if t.info.kind == Fwd then (if t.info.kflag then Union else Struct) else t.info.kind
  }

  predicate SameFamily(t: BtfType, u: BtfType) {
    t.nameOff == u.nameOff && Family(t) == Family(u)
  }

  /** What a link of the map may join: a forward declaration to a struct or
      union of its name and kind, a forward enum to an enum, a struct or union
      to one of its name, and otherwise only equal descriptors. */
  predicate LinkOk(t: BtfType, u: BtfType) {
    && SameFamily(t, u)
    && (u.info.kind == Fwd ==> t == u)
    && (t.info.kind == Int ==> t == u)
    && (t.info.kind == Enum ==> t == u || (IsEnumFwd(t) && t.size == u.size && t.info.kflag == u.info.kflag))
    && (IsRefKind(t.info.kind) || IsKept(t.info.kind) ==> Label(t) == Label(u))
  }

  ghost predicate LinksOk(g: seq<BtfType>, m: Links)
    requires |g| == |m|
  {
    forall x :: 0 <= x < |m| && Mapped(m, x) && m[x] < |m| ==> LinkOk(g[x], g[m[x]])
  }

  /** The link of x, if any, joins types with the same meaning and ends at once. */
  ghost predicate SoundAt(g: seq<BtfType>, m: Links, x: Id)
    requires |g| == |m| && x < |m|
  {
    Mapped(m, x) ==> Canonical(m, m[x]) && Alike(g, x, g, m[x])
  }

  ghost predicate Sound(g: seq<BtfType>, m: Links)
    requires |g| == |m|
  {
    forall x: Id :: x < |m| ==> SoundAt(g, m, x)
  }

  ghost predicate SameMeaning(g: seq<BtfType>, h: seq<BtfType>) {
    |g| == |h| && forall x :: 0 <= x < |g| ==> Alike(g, x, h, x)
  }

  ghost predicate SameLabels(g: seq<BtfType>, h: seq<BtfType>) {
    |g| == |h| && forall x :: 0 <= x < |g| ==> Label(g[x]) == Label(h[x])
  }

  /** Never a candidate, never deduplicated. */
  predicate IsKept(k: Kind) {
    k == Var || k == DataSec || k == Unkn
  }

  /** A candidate that a later link may take its place from. */
  predicate IsForward(t: BtfType) {
    t.info.kind == Fwd || IsEnumFwd(t)
  }

  ghost predicate FilingOk(g: seq<BtfType>, m: Links, resolveFwds: bool, e: Filing)
    requires |g| == |m|
  {
    && 0 < e.value < |g|
    && WellFormed(g[e.value]) && !IsKept(g[e.value].info.kind)
    && e.key == HashOf(g[e.value])
    && Mapped(m, e.value)
    && ((resolveFwds && IsForward(g[e.value])) || m[e.value] == e.value)
  }

  ghost predicate FilingsOk(g: seq<BtfType>, m: Links, resolveFwds: bool, filed: multiset<Filing>)
    requires |g| == |m|
  {
    forall e :: e in filed ==> FilingOk(g, m, resolveFwds, e)
  }

  predicate ShouldBeFiled(g: seq<BtfType>, m: Links, x: Id)
    requires |g| == |m|
  {
    0 < x && Canonical(m, x) && !IsKept(g[x].info.kind)
  }

  ghost predicate AllFiled(g: seq<BtfType>, m: Links, filed: multiset<Filing>)
    requires |g| == |m| && Closed(g)
  {
    forall x: Id :: ShouldBeFiled(g, m, x) ==> Entry(HashOf(g[x]), x) in filed
  }

  predicate Twins(g: seq<BtfType>, x: Id, y: Id) {
    x < |g| && y < |g| && x != y && g[x] == g[y] && !IsComposite(g[x].info.kind)
  }

  /** No two candidates other than structs and unions are the same record. */
  ghost predicate NoTwins(g: seq<BtfType>, filed: multiset<Filing>) {
    forall e, f :: e in filed && f in filed ==> !Twins(g, e.value, f.value)
  }

  ghost predicate ShapeOk(s: State) {
    && |s.types| == |s.input| == |s.canon| <= MAX_NR_TYPES + 1
    && Closed(s.input) && Closed(s.types)
    && SameLabels(s.input, s.types)
    && Forest(s.canon) && Canonical(s.canon, 0)
  }

  ghost predicate Ok(s: State) {
    && ShapeOk(s)
    && LinksOk(s.input, s.canon)
    && (!s.resolveFwds ==> Sound(s.input, s.canon) && SameMeaning(s.input, s.types))
    && FilingsOk(s.types, s.canon, s.resolveFwds, s.filed)
    && AllFiled(s.types, s.canon, s.filed)
    && NoTwins(s.types, s.filed)
    && RefsRooted(s.input, s.types, s.canon)
  }

  /** Every reference is the one given, or the representative that one resolves to. */
  ghost predicate RefsRooted(g: seq<BtfType>, h: seq<BtfType>, m: Links) {
    && |g| == |h| == |m| && Forest(m)
    && forall x, i :: 0 <= x < |g| && 0 <= i < |Refs(h[x])| ==> RefRooted(g[x], h[x], m, i)
  }

  ghost predicate RefRooted(t: BtfType, u: BtfType, m: Links, i: nat)
    requires Forest(m) && i < |Refs(u)|
  {
    && i < |Refs(t)|
    && (Refs(u)[i] == Refs(t)[i]
        || (Refs(t)[i] < |m| && Canonical(m, Refs(u)[i]) && Refs(u)[i] == Root(m, Refs(t)[i])))
  }

  lemma NotRewritten(g: seq<BtfType>, m: Links)
    requires |g| == |m| && Forest(m)
    ensures RefsRooted(g, g, m)
  {
  }

  /** Representatives stay, and with them what resolves to them. */
  lemma RootsKeepRefs(g: seq<BtfType>, h: seq<BtfType>, m: Links, m': Links)
    requires RefsRooted(g, h, m) && Forest(m') && |m'| == |m|
    requires forall x: Id :: Canonical(m, x) ==> Canonical(m', x)
    requires forall x :: 0 <= x < |m| && Canonical(m, Root(m, x)) ==> Root(m', x) == Root(m, x)
    ensures RefsRooted(g, h, m')
  {
    forall x, i | 0 <= x < |g| && 0 <= i < |Refs(h[x])|
      ensures RefRooted(g[x], h[x], m', i)
    {
      assert RefRooted(g[x], h[x], m, i);
    }
  }

  lemma RewriteKeepsRooted(g: seq<BtfType>, h: seq<BtfType>, m: Links, at: Id, i: nat, v: Id)
    requires RefsRooted(g, h, m) && at < |h| && i < |Refs(h[at])| && Refs(h[at])[i] < |m|
    requires Canonical(m, v) && v == Root(m, Refs(h[at])[i])
    ensures RefsRooted(g, h[at := SetRefs(h[at], Refs(h[at])[i := v])], m)
  {
    var u := SetRefs(h[at], Refs(h[at])[i := v]);
    hide Forest, Root, SetRefs, Refs;
    forall j | 0 <= j < |Refs(u)|
      ensures RefRooted(g[at], u, m, j)
    {
      assert RefRooted(g[at], h[at], m, j);
      RootUnfold(m, Refs(h[at])[i]);
    }
  }

  /** A family is kept along the whole walk to the root. */
  lemma RootFamily(g: seq<BtfType>, m: Links, x: Id)
    requires |g| == |m| && Forest(m) && LinksOk(g, m) && x < |m|
    ensures SameFamily(g[x], g[Root(m, x)])
    ensures g[x].info.kind != Fwd ==> g[Root(m, x)].info.kind != Fwd
  {
    var p := (y: nat) => y < |g| && SameFamily(g[x], g[y]) && (g[x].info.kind != Fwd ==> g[y].info.kind != Fwd);
    RootKeeps(m, x, Steps(m, x), p);
  }

  lemma AlikeSym(g: seq<BtfType>, x: Id, h: seq<BtfType>, y: Id)
    requires Alike(g, x, h, y)
    ensures Alike(h, y, g, x)
  {
  }

  lemma SoundRoot(g: seq<BtfType>, m: Links, x: Id)
    requires |g| == |m| && Forest(m) && Sound(g, m) && x < |m|
    ensures Alike(g, x, g, Root(m, x))
    ensures Mapped(m, x) ==> Root(m, x) == m[x]
  {
    RootUnfold(m, x);
    assert SoundAt(g, m, x);
    if !IsRoot(m, x) {
      RootUnfold(m, m[x]);
    }
  }

  /** One level deeper, for a graph in which one record's references moved. */
  lemma RewriteStep(g: seq<BtfType>, h: seq<BtfType>, at: Id, rs: seq<Id>, x: Id, k: nat)
    requires at < |g| && |rs| == |Refs(g[at])| && h == g[at := SetRefs(g[at], rs)]
    requires forall i :: 0 <= i < |rs| ==> Alike(g, Refs(g[at])[i], g, rs[i])
    requires forall y: Id :: Unfold(h, y, k) == Unfold(g, y, k)
    requires x < |g|
    ensures Unfold(h, x, k + 1) == Unfold(g, x, k + 1)
  {
    UnfoldStep(h, x, g, x, k);
    if x == at {
      SetRefsKeepsLabel(g[at], rs);
      forall i | 0 <= i < |rs|
        ensures Unfold(h, rs[i], k) == Unfold(g, Refs(g[at])[i], k)
      {
        assert Alike(g, Refs(g[at])[i], g, rs[i]);
      }
    }
  }

  /** Rewriting references to alike types leaves every type's meaning alone. */
  lemma {:induction false} RewriteUnfold(g: seq<BtfType>, at: Id, rs: seq<Id>, k: nat)
    requires at < |g| && |rs| == |Refs(g[at])|
    requires forall i :: 0 <= i < |rs| ==> Alike(g, Refs(g[at])[i], g, rs[i])
    ensures forall x: Id :: Unfold(g[at := SetRefs(g[at], rs)], x, k) == Unfold(g, x, k)
  {
    if k > 0 {
      RewriteUnfold(g, at, rs, k - 1);
      var h := g[at := SetRefs(g[at], rs)];
      forall x: Id
        ensures Unfold(h, x, k) == Unfold(g, x, k)
      {
        if x < |g| {
          RewriteStep(g, h, at, rs, x, k - 1);
        }
      }
    }
  }

  lemma LinkKeepsSound(g: seq<BtfType>, m: Links, c: Id, t: Id)
    requires |g| == |m| && Sound(g, m) && c < |m| && t < |m| && c != t
    requires !Mapped(m, c) && Canonical(m, t) && Alike(g, c, g, t)
    ensures Sound(g, m[c := t])
  {
    var m' := m[c := t];
    forall x: Id | x < |m'|
      ensures SoundAt(g, m', x)
    {
      assert SoundAt(g, m, x);
    }
  }

  lemma LinkKeepsFilings(g: seq<BtfType>, m: Links, resolveFwds: bool, filed: multiset<Filing>, c: Id, t: Id)
    requires |g| == |m| && FilingsOk(g, m, resolveFwds, filed) && c < |m| && t < |m| && t <= MAX_NR_TYPES
    requires m[c] == c ==> resolveFwds && IsForward(g[c])
    ensures FilingsOk(g, m[c := t], resolveFwds, filed)
  {
    forall e | e in filed
      ensures FilingOk(g, m[c := t], resolveFwds, e)
    {
      assert FilingOk(g, m, resolveFwds, e);
    }
  }

  lemma LinkKeepsAllFiled(g: seq<BtfType>, m: Links, filed: multiset<Filing>, c: Id, t: Id)
    requires |g| == |m| && Closed(g) && AllFiled(g, m, filed) && c < |m| && c != t
    ensures AllFiled(g, m[c := t], filed)
  {
    forall x: Id | ShouldBeFiled(g, m[c := t], x)
      ensures Entry(HashOf(g[x]), x) in filed
    {
      assert ShouldBeFiled(g, m, x);
    }
  }

  /** Linking an unmapped type to a candidate. */
  lemma LinkCandidate(s: State, c: Id, t: Id)
    requires Ok(s) && 0 < c < |s.canon| && t < |s.canon| && c != t
    requires !Mapped(s.canon, c) && Root(s.canon, t) != c
    requires LinkOk(s.input[c], s.input[t])
    requires !s.resolveFwds ==> Canonical(s.canon, t) && Alike(s.input, c, s.input, t)
    ensures Ok(s.(canon := s.canon[c := t]))
    ensures forall x :: 0 <= x < |s.canon| ==>
      Root(s.canon[c := t], x) == if Root(s.canon, x) == c then Root(s.canon, t) else Root(s.canon, x)
  {
    LinkRoot(s.canon, c, t);
    if !s.resolveFwds {
      LinkKeepsSound(s.input, s.canon, c, t);
    }
    LinkKeepsFilings(s.types, s.canon, s.resolveFwds, s.filed, c, t);
    LinkKeepsAllFiled(s.types, s.canon, s.filed, c, t);
    RootsKeepRefs(s.input, s.types, s.canon, s.canon[c := t]);
  }

  lemma RelinkKeepsSound(g: seq<BtfType>, m: Links, c: Id, t: Id)
    requires |g| == |m| && Sound(g, m) && c < |m| && t < |m| && c != t && !Canonical(m, c)
    requires Canonical(m, t) && Alike(g, c, g, t)
    ensures Sound(g, m[c := t])
  {
    var m' := m[c := t];
    forall x: Id | x < |m'|
      ensures SoundAt(g, m', x)
    {
      assert SoundAt(g, m, x);
    }
  }

  /** Giving a struct or union its final representative, whether or not a
      merge has already given it one. */
  lemma LinkStruct(s: State, c: Id, t: Id)
    requires Ok(s) && 0 < c < |s.canon| && c != t && IsComposite(s.types[c].info.kind)
    requires !Canonical(s.canon, c) && Canonical(s.canon, t) && LinkOk(s.input[c], s.input[t]) && s.types == s.input
    requires !s.resolveFwds ==> Alike(s.input, c, s.input, t)
    ensures Ok(s.(canon := s.canon[c := t]))
  {
    Redirect(s.canon, c, t);
    if !s.resolveFwds {
      RelinkKeepsSound(s.input, s.canon, c, t);
    }
    LinkKeepsFilings(s.types, s.canon, s.resolveFwds, s.filed, c, t);
    LinkKeepsAllFiled(s.types, s.canon, s.filed, c, t);
    NotRewritten(s.input, s.canon[c := t]);
  }

  /** Resolving a candidate that announces a type, whatever it was mapped to. */
  lemma LinkForward(s: State, c: Id, t: Id)
    requires Ok(s) && s.resolveFwds && s.types == s.input && 0 < c < |s.canon| && t < |s.canon| && c != t
    requires IsForward(s.types[c]) && IsRoot(s.canon, t)
    requires LinkOk(s.input[c], s.input[t])
    ensures Ok(s.(canon := s.canon[c := t]))
  {
    Redirect(s.canon, c, t);
    LinkKeepsFilings(s.types, s.canon, s.resolveFwds, s.filed, c, t);
    LinkKeepsAllFiled(s.types, s.canon, s.filed, c, t);
    NotRewritten(s.input, s.canon[c := t]);
  }

  /** A record different from every candidate under its hash has no twin. */
  lemma FileKeepsNoTwins(g: seq<BtfType>, m: Links, resolveFwds: bool, filed: multiset<Filing>, f: Filing)
    requires |g| == |m| && FilingsOk(g, m, resolveFwds, filed) && NoTwins(g, filed)
    requires f.value < |g| && WellFormed(g[f.value]) && f.key == HashOf(g[f.value])
    requires IsComposite(g[f.value].info.kind) ||
             forall e :: e in filed && e.key == f.key ==> g[e.value] != g[f.value]
    ensures NoTwins(g, filed + multiset{f})
  {
    forall e | e in filed
      ensures !Twins(g, e.value, f.value) && !Twins(g, f.value, e.value)
    {
      assert FilingOk(g, m, resolveFwds, e);
    }
  }

  lemma FileKeepsFilings(g: seq<BtfType>, m: Links, resolveFwds: bool, filed: multiset<Filing>, f: Filing)
    requires |g| == |m| && FilingsOk(g, m, resolveFwds, filed)
    requires 0 < f.value < |g| && f.value <= MAX_NR_TYPES && !Mapped(m, f.value)
    requires WellFormed(g[f.value]) && f.key == HashOf(g[f.value]) && !IsKept(g[f.value].info.kind)
    ensures FilingsOk(g, m[f.value := f.value], resolveFwds, filed + multiset{f})
  {
    forall e | e in filed + multiset{f}
      ensures FilingOk(g, m[f.value := f.value], resolveFwds, e)
    {
      assert e in filed ==> FilingOk(g, m, resolveFwds, e);
    }
  }

  lemma FileKeepsAllFiled(g: seq<BtfType>, m: Links, filed: multiset<Filing>, f: Filing)
    requires |g| == |m| && Closed(g) && AllFiled(g, m, filed) && f.value < |g| && f.key == HashOf(g[f.value])
    ensures AllFiled(g, m[f.value := f.value], filed + multiset{f})
  {
    forall x: Id | ShouldBeFiled(g, m[f.value := f.value], x)
      ensures Entry(HashOf(g[x]), x) in filed + multiset{f}
    {
      assert x != f.value ==> ShouldBeFiled(g, m, x);
    }
  }

  /** Making an unmapped type its own representative and filing it. */
  lemma FileNew(s: State, c: Id)
    requires Ok(s) && 0 < c < |s.canon| && !Mapped(s.canon, c) && !IsKept(s.types[c].info.kind)
    requires IsComposite(s.types[c].info.kind) ||
             forall e :: e in s.filed && e.key == HashOf(s.types[c]) ==> s.types[e.value] != s.types[c]
    ensures Ok(s.(canon := s.canon[c := c], filed := s.filed + multiset{Entry(HashOf(s.types[c]), c)}))
    ensures forall x :: 0 <= x < |s.canon| ==> Root(s.canon[c := c], x) == Root(s.canon, x)
  {
    MarkRoot(s.canon, c, c);
    var f := Entry(HashOf(s.types[c]), c);
    FileKeepsFilings(s.types, s.canon, s.resolveFwds, s.filed, f);
    FileKeepsAllFiled(s.types, s.canon, s.filed, f);
    FileKeepsNoTwins(s.types, s.canon, s.resolveFwds, s.filed, f);
    MarkKeepsSound(s, c, c);
    RootsKeepRefs(s.input, s.types, s.canon, s.canon[c := c]);
  }

  lemma MarkKeepsSound(s: State, c: Id, v: nat)
    requires ShapeOk(s) && LinksOk(s.input, s.canon) && c < |s.canon| && !Mapped(s.canon, c)
    requires v == c || v > MAX_NR_TYPES
    ensures LinksOk(s.input, s.canon[c := v])
    ensures Sound(s.input, s.canon) ==> Sound(s.input, s.canon[c := v])
  {
    if Sound(s.input, s.canon) {
      var m' := s.canon[c := v];
      forall x: Id | x < |m'|
        ensures SoundAt(s.input, m', x)
      {
        assert SoundAt(s.input, s.canon, x);
      }
    }
  }

  /** What one step for struct id may do to the map: nothing is unmapped, only forward
      declarations lose their place, only id can gain one, and no other kind is touched. */
  ghost predicate Progress(g: seq<BtfType>, m0: Links, m: Links, id: Id) {
    && |m0| == |m| == |g|
    && (forall x :: 0 <= x < |g| && Mapped(m0, x) ==> Mapped(m, x))
    && (forall x: Id :: Canonical(m0, x) && !IsForward(g[x]) ==> Canonical(m, x))
    && (forall x: Id :: Canonical(m, x) ==> Canonical(m0, x) || x == id)
    && (forall x :: 0 <= x < |g| && !IsComposite(g[x].info.kind) && g[x].info.kind != Fwd ==> m[x] == m0[x])
  }

  lemma ProgressTrans(g: seq<BtfType>, m0: Links, m1: Links, m2: Links, id: Id)
    requires Progress(g, m0, m1, id) && Progress(g, m1, m2, id)
    ensures Progress(g, m0, m2, id)
  {
  }

  lemma ProgressRefl(g: seq<BtfType>, m: Links, id: Id)
    requires |m| == |g|
    ensures Progress(g, m, m, id)
  {
  }

  lemma ProgressLink(g: seq<BtfType>, m: Links, c: Id, t: Id, id: Id)
    requires |m| == |g| && c < |m| && t < |m| <= MAX_NR_TYPES + 1
    requires !Mapped(m, c) || IsForward(g[c])
    requires (c != t || c == id) && (IsComposite(g[c].info.kind) || g[c].info.kind == Fwd)
    ensures Progress(g, m, m[c := t], id)
  {
  }

  lemma NotYetCanonical(g: seq<BtfType>, m0: Links, m: Links, id: Id)
    requires Progress(g, m0, m, 0) && 0 < id < |m0| && !Mapped(m0, id)
    ensures !Canonical(m, id)
  {
  }

  /** The step's own type is mapped last. */
  lemma ProgressSet(g: seq<BtfType>, m0: Links, m: Links, id: Id, newId: Id)
    requires Progress(g, m0, m, 0) && Canonical(m0, 0) && 0 < id < |m| <= MAX_NR_TYPES + 1 && !Mapped(m0, id)
    requires newId < |m| && IsComposite(g[id].info.kind)
    ensures Progress(g, m0, m[id := newId], id)
  {
  }

  lemma TwinsUnfold(g: seq<BtfType>, x: Id, y: Id, k: nat)
    requires x < |g| && y < |g| && g[x] == g[y]
    ensures Unfold(g, x, k) == Unfold(g, y, k)
  {
    if k > 0 {
      UnfoldStep(g, x, g, y, k - 1);
    }
  }

  /** Identical records mean the same. */
  lemma TwinsAlike(g: seq<BtfType>, x: Id, y: Id)
    requires x < |g| && y < |g| && g[x] == g[y]
    ensures Alike(g, x, g, y)
  {
    forall k: nat
      ensures Unfold(g, x, k) == Unfold(g, y, k)
    {
      TwinsUnfold(g, x, y, k);
    }
  }

  /** The primitive pass has not come to i yet: from i on nothing but VAR and
      DATASEC is mapped, and no link leads there. */
  ghost predicate FreshFrom(g: seq<BtfType>, m: Links, i: Id)
    requires |g| == |m|
  {
    && (forall x :: i <= x < |m| ==> !Mapped(m, x) || (m[x] == x && IsKept(g[x].info.kind)))
    && (forall x :: 0 <= x < |m| && Mapped(m, x) ==> m[x] == x || m[x] < i)
  }

  /** Only forward enums were redirected, all to id. */
  ghost predicate Redirected(g: seq<BtfType>, m0: Links, m: Links, id: Id) {
    && |m0| == |m| == |g|
    && forall x ::
      0 <= x < |m| ==> m[x] == m0[x] || (m[x] == id && x < id && Mapped(m0, x) && IsPrimKind(g[x].info.kind))
  }

  lemma NobodyLinks(g: seq<BtfType>, m: Links, id: Id, x: Id)
    requires |g| == |m| && Forest(m) && FreshFrom(g, m, id) && id < |m| && !Mapped(m, id) && x < |m| && x != id
    ensures Root(m, x) != id
  {
    assert forall y :: 0 <= y < |m| && Mapped(m, y) ==> m[y] != id;
    UnlinkedRoot(m, id, x, Steps(m, x));
  }

  /** The pass moves on by one type. */
  lemma FreshNext(g: seq<BtfType>, m0: Links, m: Links, id: Id, newId: Id)
    requires |g| == |m0| && FreshFrom(g, m0, id) && Redirected(g, m0, m, id) && id < |m| <= MAX_NR_TYPES + 1
    requires newId <= id
    ensures FreshFrom(g, m[id := newId], id + 1)
  {
  }

  lemma FreshSkip(g: seq<BtfType>, m: Links, id: Id)
    requires |g| == |m| && FreshFrom(g, m, id)
    ensures FreshFrom(g, m, id + 1)
  {
  }

  lemma RedirectedRefl(g: seq<BtfType>, m: Links, id: Id)
    requires |g| == |m|
    ensures Redirected(g, m, m, id)
  {
  }

  lemma FreshUnmapped(g: seq<BtfType>, m: Links, id: Id)
    requires |g| == |m| && FreshFrom(g, m, id) && id < |g| && !IsKept(g[id].info.kind)
    ensures !Mapped(m, id)
  {
  }

  /** The primitive pass maps its type, unmaps nothing, and leaves the other kinds alone. */
  ghost predicate PrimStep(g: seq<BtfType>, m0: Links, m: Links, id: Id) {
    && |m0| == |m| == |g|
    && (id < |g| && IsPrimKind(g[id].info.kind) ==> Mapped(m, id))
    && (forall x :: 0 <= x < |g| && Mapped(m0, x) ==> Mapped(m, x))
    && (forall x :: 0 <= x < |g| && !IsPrimKind(g[x].info.kind) ==> m[x] == m0[x])
  }

  lemma PrimStepSkip(g: seq<BtfType>, m: Links, id: Id)
    requires |m| == |g| && id < |g|
    ensures !IsPrimKind(g[id].info.kind) ==> PrimStep(g, m, m, id)
  {
  }

  lemma PrimStepSet(g: seq<BtfType>, m0: Links, m: Links, id: Id, newId: Id)
    requires |g| == |m0| && Redirected(g, m0, m, id) && id < |m| <= MAX_NR_TYPES + 1 && newId <= id
    requires IsPrimKind(g[id].info.kind)
    ensures PrimStep(g, m0, m[id := newId], id)
  {
  }

  /** Everything but the reference kinds is mapped, and links lead to mapped types. */
  ghost predicate Grounded(g: seq<BtfType>, m: Links)
    requires |g| == |m|
  {
    && (forall x :: 0 <= x < |g| && !IsRefKind(g[x].info.kind) ==> Mapped(m, x))
    && (forall x {:trigger Mapped(m, x)} :: 0 <= x < |g| && Mapped(m, x) && m[x] < |m| ==> Mapped(m, m[x]))
  }

  lemma GroundedRoot(g: seq<BtfType>, m: Links, x: Id)
    requires |g| == |m| && Forest(m) && Grounded(g, m) && x < |m| && Mapped(m, x)
    ensures Canonical(m, Root(m, x))
  {
    var p := (y: nat) => y < |m| && Mapped(m, y);
    RootKeeps(m, x, Steps(m, x), p);
  }

  /** The types the reference pass has not entered. */
  ghost function Waiting(m: Links): set<Id> {
    set x: Id | 0 <= x < |m| && m[x] > MAX_NR_TYPES && m[x] != IN_PROGRESS
  }

  /** The reference pass touches only types it had not entered, takes none back, and
      leaves those it has still not entered as they were. */
  ghost predicate RefStep(g0: seq<BtfType>, g: seq<BtfType>, m0: Links, m: Links) {
    && |g0| == |g| == |m0| == |m|
    && Waiting(m) <= Waiting(m0)
    && (forall x: Id :: x < |m0| && x !in Waiting(m0) ==> g[x] == g0[x] && m[x] == m0[x])
    && (forall x: Id :: x in Waiting(m) ==> g[x] == g0[x])
  }

  lemma RefStepTrans(g0: seq<BtfType>, g1: seq<BtfType>, g2: seq<BtfType>, m0: Links, m1: Links, m2: Links)
    requires RefStep(g0, g1, m0, m1) && RefStep(g1, g2, m1, m2)
    ensures RefStep(g0, g2, m0, m2)
  {
    forall x: Id | x < |m0| && x !in Waiting(m0)
      ensures g2[x] == g0[x] && m2[x] == m0[x]
    {
      assert x !in Waiting(m1);
    }
  }

  lemma RefStepRefl(g: seq<BtfType>, m: Links)
    requires |g| == |m|
    ensures RefStep(g, g, m, m)
  {
  }

  /** Entering, rewriting or leaving the type at hand is part of the step. */
  lemma RefStepAt(g0: seq<BtfType>, g: seq<BtfType>, m0: Links, m: Links, id: Id, t: BtfType, v: nat)
    requires RefStep(g0, g, m0, m) && id in Waiting(m0) && id < |m| && (v == IN_PROGRESS || v <= MAX_NR_TYPES)
    ensures RefStep(g0, g[id := t], m0, m[id := v])
    ensures Waiting(m[id := v]) == Waiting(m) - {id}
  {
  }

  /** From x, chains of mapped reference types end within f steps. */
  ghost predicate Ends(g: seq<BtfType>, m: Links, x: Id, f: nat)
    requires |g| == |m|
    decreases f
  {
    && x < |g| && Mapped(m, x)
    && (IsRefKind(g[x].info.kind) ==> f > 0 && forall i :: 0 <= i < |Refs(g[x])| ==> Ends(g, m, Refs(g[x])[i], f - 1))
  }

  lemma {:induction false} EndsMore(g: seq<BtfType>, m: Links, x: Id, f: nat, f': nat)
    requires |g| == |m| && Ends(g, m, x, f) && f <= f'
    ensures Ends(g, m, x, f')
    decreases f
  {
    if IsRefKind(g[x].info.kind) {
      forall i | 0 <= i < |Refs(g[x])|
        ensures Ends(g, m, Refs(g[x])[i], f' - 1)
      {
        EndsMore(g, m, Refs(g[x])[i], f - 1, f' - 1);
      }
    }
  }

  /** A chain of mapped types does not see what happens to an unmapped one. */
  lemma {:induction false} EndsKept(g0: seq<BtfType>, g: seq<BtfType>, m0: Links, m: Links, id: Id, x: Id, f: nat)
    requires |g0| == |m0| == |g| == |m| && id < |g| && !Mapped(m0, id)
    requires forall y: Id :: y < |g| && y != id ==> g[y] == g0[y] && m[y] == m0[y]
    requires Ends(g0, m0, x, f)
    ensures Ends(g, m, x, f)
    decreases f
  {
    if IsRefKind(g[x].info.kind) {
      forall i | 0 <= i < |Refs(g[x])|
        ensures Ends(g, m, Refs(g[x])[i], f - 1)
      {
        EndsKept(g0, g, m0, m, id, Refs(g[x])[i], f - 1);
      }
    }
  }

  /* Cycles of reference types. */

  /** From x, chains of reference types end within f steps. */
  ghost predicate RefEnds(g: seq<BtfType>, x: Id, f: nat)
    decreases f
  {
    && x < |g|
    && (IsRefKind(g[x].info.kind) ==> f > 0 && forall i :: 0 <= i < |Refs(g[x])| ==> RefEnds(g, Refs(g[x])[i], f - 1))
  }

  ghost predicate ChainEnds(g: seq<BtfType>, x: Id) {
    exists f: nat :: RefEnds(g, x, f)
  }

  /** Every cycle of references passes through a type that is no reference type. */
  ghost predicate NoRefCycles(g: seq<BtfType>) {
    forall x: Id :: x < |g| ==> ChainEnds(g, x)
  }

  lemma {:induction false} RefEndsMore(g: seq<BtfType>, x: Id, f: nat, f': nat)
    requires RefEnds(g, x, f) && f <= f'
    ensures RefEnds(g, x, f')
    decreases f
  {
    if IsRefKind(g[x].info.kind) {
      forall i | 0 <= i < |Refs(g[x])|
        ensures RefEnds(g, Refs(g[x])[i], f' - 1)
      {
        RefEndsMore(g, Refs(g[x])[i], f - 1, f' - 1);
      }
    }
  }

  /** The chains of a reference type end if those of all it refers to do. */
  lemma {:induction false} ChainsJoin(g: seq<BtfType>, x: Id)
    requires x < |g| && forall i :: 0 <= i < |Refs(g[x])| ==> ChainEnds(g, Refs(g[x])[i])
    ensures ChainEnds(g, x)
  {
    var f: nat := 0;
    for n := 0 to |Refs(g[x])|
      invariant forall i :: 0 <= i < n ==> RefEnds(g, Refs(g[x])[i], f)
    {
      var f1: nat :| RefEnds(g, Refs(g[x])[n], f1);
      var m := if f1 < f then f else f1;
      forall i | 0 <= i <= n
        ensures RefEnds(g, Refs(g[x])[i], m)
      {
        RefEndsMore(g, Refs(g[x])[i], if i < n then f else f1, m);
      }
      f := m;
    }
    assert RefEnds(g, x, f + 1);
  }

  /** The chains of all mapped types end. */
  ghost predicate MappedEnd(g: seq<BtfType>, m: Links) {
    forall x: Id :: x < |m| && Mapped(m, x) ==> ChainEnds(g, x)
  }

  /** The types being entered are not reached from where chains end within f steps. */
  ghost predicate Away(g: seq<BtfType>, m: Links, f: nat) {
    forall x: Id :: x < |m| && m[x] == IN_PROGRESS ==> !RefEnds(g, x, f)
  }

  /** The same types are being entered. */
  ghost predicate SameEntered(m0: Links, m: Links) {
    |m0| == |m| && forall x :: 0 <= x < |m| ==> (m0[x] == IN_PROGRESS <==> m[x] == IN_PROGRESS)
  }

  lemma EnteredTrans(m0: Links, m1: Links, m2: Links)
    requires SameEntered(m0, m1) && SameEntered(m1, m2)
    ensures SameEntered(m0, m2)
  {
  }

  lemma AwayStays(g: seq<BtfType>, m0: Links, m: Links, f: nat)
    requires SameEntered(m0, m)
    ensures Away(g, m0, f) ==> Away(g, m, f)
  {
  }

  /** A bound for one type. */
  ghost function ChainBound(g: seq<BtfType>, x: Id): (f: nat)
    requires NoRefCycles(g) && x < |g|
    ensures RefEnds(g, x, f)
  {
    assert ChainEnds(g, x);
    var f: nat :| RefEnds(g, x, f);
    f
  }

  /** Before the reference pass no type has been entered. */
  lemma StartChains(g: seq<BtfType>, m: Links)
    requires |g| == |m| && forall x :: 0 <= x < |g| && IsRefKind(g[x].info.kind) ==> m[x] == UNPROCESSED
    requires forall x :: 0 <= x < |g| && !IsRefKind(g[x].info.kind) ==> Mapped(m, x)
    ensures MappedEnd(g, m) && SameEntered(m, m)
    ensures forall x :: 0 <= x < |m| ==> m[x] != IN_PROGRESS
  {
    forall x: Id | x < |m| && Mapped(m, x)
      ensures ChainEnds(g, x)
    {
      assert RefEnds(g, x, 0);
    }
  }

  lemma NoneEntered(g: seq<BtfType>, m: Links, f: nat)
    requires forall x :: 0 <= x < |m| ==> m[x] != IN_PROGRESS
    ensures Away(g, m, f)
  {
  }

  lemma StillNoneEntered(m0: Links, m: Links)
    requires SameEntered(m0, m) && forall x :: 0 <= x < |m0| ==> m0[x] != IN_PROGRESS
    ensures forall x :: 0 <= x < |m| ==> m[x] != IN_PROGRESS
  {
  }

  lemma AllChainsEnd(g: seq<BtfType>, m: Links)
    requires |g| == |m| && MappedEnd(g, m) && forall x :: 0 <= x < |m| ==> Mapped(m, x)
    ensures NoRefCycles(g)
  {
  }

  /** The least number of steps in which the chains from x end. */
  ghost function ChainLength(g: seq<BtfType>, x: Id, f: nat): (k: nat)
    requires RefEnds(g, x, f)
    ensures k <= f && RefEnds(g, x, k) && (k > 0 ==> !RefEnds(g, x, k - 1))
  {
    if f > 0 && RefEnds(g, x, f - 1) then ChainLength(g, x, f - 1) else f
  }

  /** Entering a reference type, its references end sooner. */
  lemma EnterAway(g: seq<BtfType>, m: Links, x: Id, f: nat) returns (k: nat)
    requires x < |g| == |m| && IsRefKind(g[x].info.kind) && RefEnds(g, x, f) && Away(g, m, f)
    ensures Away(g, m[x := IN_PROGRESS], k)
    ensures forall i :: 0 <= i < |Refs(g[x])| ==> RefEnds(g, Refs(g[x])[i], k)
  {
    k := ChainLength(g, x, f) - 1;
    forall y: Id | y < |m| && m[y] == IN_PROGRESS
      ensures !RefEnds(g, y, k)
    {
      if RefEnds(g, y, k) {
        RefEndsMore(g, y, k, f);
      }
    }
  }

  /** A mapped reference type refers to representatives only, and its chain of
      reference types ends. */
  ghost predicate StableAt(g: seq<BtfType>, m: Links, x: Id)
    requires |g| == |m| && x < |g|
  {
    IsRefKind(g[x].info.kind) && Mapped(m, x) ==>
      && (forall i :: 0 <= i < |Refs(g[x])| ==> Canonical(m, Refs(g[x])[i]))
      && exists f: nat :: Ends(g, m, x, f)
  }

  ghost predicate Stable(g: seq<BtfType>, m: Links)
    requires |g| == |m|
  {
    forall x: Id :: x < |g| ==> StableAt(g, m, x)
  }

  /** One bound for the chains of all of several types. */
  lemma {:induction false} CommonEnd(g: seq<BtfType>, m: Links, rs: seq<Id>) returns (f: nat)
    requires |g| == |m| && Stable(g, m)
    requires forall i :: 0 <= i < |rs| ==> rs[i] < |g| && Mapped(m, rs[i])
    ensures forall i :: 0 <= i < |rs| ==> Ends(g, m, rs[i], f)
  {
    if rs == [] {
      f := 0;
    } else {
      var n := |rs| - 1;
      var f0 := CommonEnd(g, m, rs[..n]);
      assert StableAt(g, m, rs[n]);
      assert !IsRefKind(g[rs[n]].info.kind) ==> Ends(g, m, rs[n], 0);
      var f1: nat :| Ends(g, m, rs[n], f1);
      f := f0 + f1;
      forall i | 0 <= i < |rs|
        ensures Ends(g, m, rs[i], f)
      {
        if i < n {
          assert Ends(g, m, rs[..n][i], f0);
          EndsMore(g, m, rs[i], f0, f);
        } else {
          EndsMore(g, m, rs[i], f1, f);
        }
      }
    }
  }

  /** Changing an unmapped type leaves the mapped ones stable. */
  lemma StableElsewhere(g0: seq<BtfType>, g: seq<BtfType>, m0: Links, m: Links, id: Id)
    requires |g0| == |m0| == |g| == |m| && Stable(g0, m0) && id < |g| && !Mapped(m0, id)
    requires forall x: Id :: x < |g| && x != id ==> g[x] == g0[x] && m[x] == m0[x]
    requires StableAt(g, m, id)
    ensures Stable(g, m)
  {
    forall x: Id | x < |g|
      ensures StableAt(g, m, x)
    {
      if x != id && IsRefKind(g[x].info.kind) && Mapped(m, x) {
        assert StableAt(g0, m0, x);
        var f: nat :| Ends(g0, m0, x, f);
        EndsKept(g0, g, m0, m, id, x, f);
      }
    }
  }

  /** A type whose references are all representatives can be mapped. */
  lemma StableMapped(g: seq<BtfType>, m: Links, id: Id, v: Id)
    requires |g| == |m| && Stable(g, m) && id < |g| && !Mapped(m, id) && v <= MAX_NR_TYPES
    requires forall i :: 0 <= i < |Refs(g[id])| ==> Canonical(m, Refs(g[id])[i])
    ensures Stable(g, m[id := v])
  {
    var m' := m[id := v];
    var f := CommonEnd(g, m, Refs(g[id]));
    forall i | 0 <= i < |Refs(g[id])|
      ensures Ends(g, m', Refs(g[id])[i], f) && Canonical(m', Refs(g[id])[i])
    {
      EndsKept(g, g, m, m', id, Refs(g[id])[i], f);
    }
    assert Ends(g, m', id, f + 1);
    StableElsewhere(g, g, m, m', id);
  }

  lemma GroundedKept(g0: seq<BtfType>, g: seq<BtfType>, m: Links, id: Id, v: nat)
    requires |g0| == |m| == |g| && Grounded(g0, m) && id < |g| && !Mapped(m, id)
    requires forall x :: 0 <= x < |g| ==> g[x].info == g0[x].info
    requires v > MAX_NR_TYPES || v == id || (v < |m| && Mapped(m, v))
    ensures Grounded(g, m[id := v])
  {
    var m' := m[id := v];
    forall x | 0 <= x < |g| && Mapped(m', x) && m'[x] < |m'|
      ensures Mapped(m', m'[x])
    {
      if x != id {
        assert Mapped(m, x);
      }
    }
  }

  lemma SetOneRefAlike(g: seq<BtfType>, at: Id, i: nat, v: Id)
    requires at < |g| && i < |Refs(g[at])| && Alike(g, Refs(g[at])[i], g, v)
    ensures forall x: Id, k: nat :: Unfold(g[at := SetRefs(g[at], Refs(g[at])[i := v])], x, k) == Unfold(g, x, k)
  {
    forall x: Id, k: nat
      ensures Unfold(g[at := SetRefs(g[at], Refs(g[at])[i := v])], x, k) == Unfold(g, x, k)
    {
      RewriteUnfold(g, at, Refs(g[at])[i := v], k);
    }
  }

  /** Two types alike in the input are alike in the rewritten types, and back. */
  lemma AlikeTransfer(g: seq<BtfType>, h: seq<BtfType>, x: Id, y: Id)
    requires SameMeaning(g, h) && x < |g| && y < |g|
    ensures Alike(g, x, g, y) <==> Alike(h, x, h, y)
  {
    assert Alike(g, x, h, x) && Alike(g, y, h, y);
    AlikeSym(g, x, h, x);
    AlikeSym(g, y, h, y);
    if Alike(g, x, g, y) {
      AlikeTrans(h, x, g, x, g, y);
      AlikeTrans(h, x, g, y, h, y);
    }
    if Alike(h, x, h, y) {
      AlikeTrans(g, x, h, x, h, y);
      AlikeTrans(g, x, h, y, g, y);
    }
  }

  lemma RewriteKeepsMeaning(s: State, at: Id, i: nat, v: Id)
    requires Ok(s) && !s.resolveFwds && at < |s.types| && i < |Refs(s.types[at])| && v < |s.types|
    requires Alike(s.input, Refs(s.types[at])[i], s.input, v)
    ensures SameMeaning(s.input, s.types[at := SetRefs(s.types[at], Refs(s.types[at])[i := v])])
  {
    var h := s.types[at := SetRefs(s.types[at], Refs(s.types[at])[i := v])];
    assert Refs(s.types[at])[i] < |s.types|;
    AlikeTransfer(s.input, s.types, Refs(s.types[at])[i], v);
    SetOneRefAlike(s.types, at, i, v);
    forall x | 0 <= x < |h|
      ensures Alike(s.input, x, h, x)
    {
      assert Alike(s.input, x, s.types, x);
    }
  }

  /** Overwriting one reference of an unmapped type by its representative. */
  lemma RewriteRef(s: State, at: Id, i: nat, v: Id)
    requires Ok(s) && at < |s.types| && at > 0 && !Mapped(s.canon, at) && i < |Refs(s.types[at])| && v < |s.types|
    requires Canonical(s.canon, v) && Refs(s.types[at])[i] < |s.canon| && v == Root(s.canon, Refs(s.types[at])[i])
    requires !s.resolveFwds ==> Alike(s.input, Refs(s.types[at])[i], s.input, v)
    ensures Ok(s.(types := s.types[at := SetRefs(s.types[at], Refs(s.types[at])[i := v])]))
  {
    var t := SetRefs(s.types[at], Refs(s.types[at])[i := v]);
    var h := s.types[at := t];
    SetRefsKeepsLabel(s.types[at], Refs(s.types[at])[i := v]);
    if !s.resolveFwds {
      RewriteKeepsMeaning(s, at, i, v);
    }
    RewriteKeepsShape(s, at, t);
    RewriteKeepsFilings(s, at, t);
    RewriteKeepsRooted(s.input, s.types, s.canon, at, i, v);
  }

  lemma RewriteKeepsShape(s: State, at: Id, t: BtfType)
    requires ShapeOk(s) && 0 < at < |s.types| && WellFormed(t) && Label(t) == Label(s.types[at])
    requires forall i :: 0 <= i < |Refs(t)| ==> Refs(t)[i] < |s.types|
    ensures ShapeOk(s.(types := s.types[at := t]))
  {
  }

  lemma RewriteKeepsFilings(s: State, at: Id, t: BtfType)
    requires Ok(s) && 0 < at < |s.types| && !Mapped(s.canon, at) && Closed(s.types[at := t])
    ensures FilingsOk(s.types[at := t], s.canon, s.resolveFwds, s.filed)
    ensures AllFiled(s.types[at := t], s.canon, s.filed)
    ensures NoTwins(s.types[at := t], s.filed)
  {
    var h := s.types[at := t];
    forall e: Filing | e in s.filed
      ensures FilingOk(h, s.canon, s.resolveFwds, e) && e.value != at && e.value < |s.types|
    {
      assert FilingOk(s.types, s.canon, s.resolveFwds, e);
    }
    forall x: Id | ShouldBeFiled(h, s.canon, x)
      ensures Entry(HashOf(h[x]), x) in s.filed
    {
      assert ShouldBeFiled(s.types, s.canon, x);
    }
    forall e: Filing, f: Filing | e in s.filed && f in s.filed
      ensures !Twins(h, e.value, f.value)
    {
      assert !Twins(s.types, e.value, f.value);
    }
  }

  lemma RefStepCanonical(g0: seq<BtfType>, g: seq<BtfType>, m0: Links, m: Links)
    requires RefStep(g0, g, m0, m)
    ensures forall x: Id :: Canonical(m0, x) ==> Canonical(m, x)
  {
    forall x: Id | Canonical(m0, x)
      ensures Canonical(m, x)
    {
      assert x !in Waiting(m0);
    }
  }

  lemma MarkKeepsFiled(g: seq<BtfType>, m: Links, resolveFwds: bool, filed: multiset<Filing>, c: Id)
    requires |g| == |m| && Closed(g) && FilingsOk(g, m, resolveFwds, filed) && AllFiled(g, m, filed)
    requires c < |m| && !Mapped(m, c)
    ensures FilingsOk(g, m[c := IN_PROGRESS], resolveFwds, filed) && AllFiled(g, m[c := IN_PROGRESS], filed)
  {
    var m' := m[c := IN_PROGRESS];
    forall e: Filing | e in filed
      ensures FilingOk(g, m', resolveFwds, e)
    {
      assert FilingOk(g, m, resolveFwds, e);
    }
    forall x: Id | ShouldBeFiled(g, m', x)
      ensures Entry(HashOf(g[x]), x) in filed
    {
      assert ShouldBeFiled(g, m, x);
    }
  }

  /** Entering an unmapped type leaves everything as it was. */
  lemma MarkState(s: State, c: Id)
    requires Ok(s) && c < |s.canon| && !Mapped(s.canon, c)
    ensures Ok(s.(canon := s.canon[c := IN_PROGRESS]))
  {
    hide Closed, SameLabels, FilingsOk, AllFiled, NoTwins, LinksOk, Sound, SameMeaning;
    MarkRoot(s.canon, c, IN_PROGRESS);
    MarkKeepsSound(s, c, IN_PROGRESS);
    MarkKeepsFiled(s.types, s.canon, s.resolveFwds, s.filed, c);
    RootsKeepRefs(s.input, s.types, s.canon, s.canon[c := IN_PROGRESS]);
  }
}
