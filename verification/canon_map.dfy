/** The canonical map of btf__dedup (`d->map`) as a forest of links. */
module CanonMap {
  const MAX_NR_TYPES: nat := 0x7fff_ffff
  const UNPROCESSED: nat := 0xffff_ffff
  const IN_PROGRESS: nat := 0xffff_fffe

  type Links = seq<nat>

  predicate Mapped(m: Links, x: nat)
    requires x < |m|
  {
    m[x] <= MAX_NR_TYPES
  }

  /** Where a walk along the map stops. */
  predicate IsRoot(m: Links, x: nat)
    requires x < |m|
  {
    !Mapped(m, x) || m[x] == x
  }

  /** A representative of itself. */
  predicate Canonical(m: Links, x: nat) {
    x < |m| && m[x] == x && x <= MAX_NR_TYPES
  }

  ghost predicate InRange(m: Links) {
    forall x :: 0 <= x < |m| && Mapped(m, x) ==> m[x] < |m|
  }

  /** The walk from x stops within f links. */
  ghost predicate Settles(m: Links, x: nat, f: nat)
    requires InRange(m) && x < |m|
    decreases f
  {
    IsRoot(m, x) || (f > 0 && Settles(m, m[x], f - 1))
  }

  ghost predicate Stops(m: Links, x: nat)
    requires InRange(m) && x < |m|
  {
    exists f: nat :: Settles(m, x, f)
  }

  /** No cycle but self-loops: every walk stops. */
  ghost predicate Forest(m: Links) {
    InRange(m) && forall x :: 0 <= x < |m| ==> Stops(m, x)
  }

  ghost function RootWithin(m: Links, x: nat, f: nat): (r: nat)
    requires InRange(m) && x < |m| && Settles(m, x, f)
    ensures r < |m| && IsRoot(m, r)
    decreases f
  {
    if IsRoot(m, x) then x else RootWithin(m, m[x], f - 1)
  }

  lemma {:induction false} RootWithinUnique(m: Links, x: nat, f: nat, g: nat)
    requires InRange(m) && x < |m| && Settles(m, x, f) && Settles(m, x, g)
    ensures RootWithin(m, x, f) == RootWithin(m, x, g)
    decreases f
  {
    if !IsRoot(m, x) {
      RootWithinUnique(m, m[x], f - 1, g - 1);
    }
  }

  ghost function Steps(m: Links, x: nat): (f: nat)
    requires Forest(m) && x < |m|
    ensures Settles(m, x, f)
  {
    assert Stops(m, x);
    var f: nat :| Settles(m, x, f);
    f
  }

  /** What resolve_type_id computes. */
  ghost function Root(m: Links, x: nat): (r: nat)
    requires Forest(m) && x < |m|
    ensures r < |m| && IsRoot(m, r)
  {
    RootWithin(m, x, Steps(m, x))
  }

  lemma RootUnfold(m: Links, x: nat)
    requires Forest(m) && x < |m|
    ensures IsRoot(m, x) ==> Root(m, x) == x
    ensures !IsRoot(m, x) ==> Root(m, x) == Root(m, m[x])
  {
    if !IsRoot(m, x) {
      RootWithinUnique(m, m[x], Steps(m, x) - 1, Steps(m, m[x]));
    }
  }

  /** A property kept by every link is kept by the whole walk. */
  lemma {:induction false} RootKeeps(m: Links, x: nat, f: nat, p: nat -> bool)
    requires InRange(m) && x < |m| && Settles(m, x, f) && p(x)
    requires forall y :: 0 <= y < |m| && !IsRoot(m, y) && p(y) ==> p(m[y])
    ensures p(RootWithin(m, x, f))
    decreases f
  {
    if !IsRoot(m, x) {
      RootKeeps(m, m[x], f - 1, p);
    }
  }

  lemma {:induction false} SettlesMore(m: Links, x: nat, f: nat, g: nat)
    requires InRange(m) && x < |m| && Settles(m, x, f) && f <= g
    ensures Settles(m, x, g)
    decreases f
  {
    if !IsRoot(m, x) {
      SettlesMore(m, m[x], f - 1, g - 1);
    }
  }

  /** Marking an unlinked entry, or making it canonical, moves no root. */
  lemma {:induction false} MarkRootWithin(m: Links, c: nat, v: nat, x: nat, f: nat)
    requires InRange(m) && x < |m| && c < |m| && IsRoot(m, c) && (v == c || v > MAX_NR_TYPES)
    requires Settles(m, x, f)
    ensures InRange(m[c := v]) && Settles(m[c := v], x, f) && RootWithin(m[c := v], x, f) == RootWithin(m, x, f)
    decreases f
  {
    if !IsRoot(m, x) {
      MarkRootWithin(m, c, v, m[x], f - 1);
    }
  }

  lemma MarkRoot(m: Links, c: nat, v: nat)
    requires Forest(m) && c < |m| && IsRoot(m, c) && (v == c || v > MAX_NR_TYPES)
    ensures Forest(m[c := v])
    ensures forall x :: 0 <= x < |m| ==> Root(m[c := v], x) == Root(m, x)
  {
    var m' := m[c := v];
    forall x | 0 <= x < |m|
      ensures Stops(m', x)
    {
      MarkRootWithin(m, c, v, x, Steps(m, x));
    }
    forall x | 0 <= x < |m|
      ensures Root(m', x) == Root(m, x)
    {
      MarkRootWithin(m, c, v, x, Steps(m, x));
      RootWithinUnique(m', x, Steps(m, x), Steps(m', x));
    }
  }

  /** A walk that does not pass c is not affected by what c links to. */
  lemma {:induction false} WalkElsewhere(m: Links, c: nat, t: nat, x: nat, f: nat)
    requires InRange(m) && c < |m| && IsRoot(m, c) && t < |m| && t <= MAX_NR_TYPES
    requires x < |m| && Settles(m, x, f) && RootWithin(m, x, f) != c
    ensures InRange(m[c := t]) && Settles(m[c := t], x, f) && RootWithin(m[c := t], x, f) == RootWithin(m, x, f)
    decreases f
  {
    if !IsRoot(m, x) {
      WalkElsewhere(m, c, t, m[x], f - 1);
    }
  }

  lemma {:induction false} WalkThrough(m: Links, c: nat, t: nat, x: nat, f: nat, g: nat)
    requires InRange(m) && c < |m| && IsRoot(m, c) && t < |m| && t <= MAX_NR_TYPES
    requires Settles(m, t, g) && RootWithin(m, t, g) != c
    requires x < |m| && Settles(m, x, f) && RootWithin(m, x, f) == c
    ensures InRange(m[c := t]) && Settles(m[c := t], x, f + g + 1)
    ensures RootWithin(m[c := t], x, f + g + 1) == RootWithin(m, t, g)
    decreases f
  {
    WalkElsewhere(m, c, t, t, g);
    if IsRoot(m, x) {
      SettlesMore(m[c := t], t, g, f + g);
      RootWithinUnique(m[c := t], t, g, f + g);
    } else {
      WalkThrough(m, c, t, m[x], f - 1, g);
    }
  }

  /** Linking a root below another tree moves exactly its own tree there. */
  lemma LinkRoot(m: Links, c: nat, t: nat)
    requires Forest(m) && c < |m| && IsRoot(m, c) && t < |m| && t <= MAX_NR_TYPES
    requires Root(m, t) != c
    ensures Forest(m[c := t])
    ensures forall x :: 0 <= x < |m| ==> Root(m[c := t], x) == if Root(m, x) == c then Root(m, t) else Root(m, x)
  {
    var m' := m[c := t];
    var g := Steps(m, t);
    WalkElsewhere(m, c, t, t, g);
    forall x | 0 <= x < |m|
      ensures Stops(m', x)
    {
      var f := Steps(m, x);
      if Root(m, x) == c {
        WalkThrough(m, c, t, x, f, g);
      } else {
        WalkElsewhere(m, c, t, x, f);
      }
    }
    forall x | 0 <= x < |m|
      ensures Root(m', x) == if Root(m, x) == c then Root(m, t) else Root(m, x)
    {
      var f := Steps(m, x);
      if Root(m, x) == c {
        WalkThrough(m, c, t, x, f, g);
        RootWithinUnique(m', x, f + g + 1, Steps(m', x));
      } else {
        WalkElsewhere(m, c, t, x, f);
        RootWithinUnique(m', x, f, Steps(m', x));
      }
    }
  }

  /** Cutting an entry loose and hanging it below a root keeps a forest. */
  lemma Redirect(m: Links, c: nat, t: nat)
    requires Forest(m) && c < |m| && t < |m| && t <= MAX_NR_TYPES && IsRoot(m, t) && t != c
    ensures Forest(m[c := t])
  {
    var cut := m[c := UNPROCESSED];
    forall x | 0 <= x < |m|
      ensures Stops(cut, x)
    {
      CutSettles(m, c, x, Steps(m, x));
    }
    assert Forest(cut);
    RootUnfold(cut, t);
    LinkRoot(cut, c, t);
    assert cut[c := t] == m[c := t];
  }

  lemma {:induction false} CutSettles(m: Links, c: nat, x: nat, f: nat)
    requires InRange(m) && c < |m| && x < |m| && Settles(m, x, f)
    ensures InRange(m[c := UNPROCESSED]) && Settles(m[c := UNPROCESSED], x, f)
    decreases f
  {
    if !IsRoot(m, x) {
      CutSettles(m, c, m[x], f - 1);
    }
  }

  /** Nothing links to c, so only c itself resolves to c. */
  lemma {:induction false} UnlinkedRoot(m: Links, c: nat, x: nat, f: nat)
    requires InRange(m) && c < |m| && x < |m| && Settles(m, x, f) && x != c
    requires forall y :: 0 <= y < |m| && Mapped(m, y) ==> m[y] != c
    ensures RootWithin(m, x, f) != c
    decreases f
  {
    if !IsRoot(m, x) {
      UnlinkedRoot(m, c, m[x], f - 1);
    }
  }
}
