/** Line info of jited programs (eBPF_app/libbpf/src/bpf_prog_linfo.c). */
module ProgLinfo {
  import opened Options
  import opened Words

  /** The sanity check of a function's length, in 64 bits. */
  predicate FitsLength(last: nat, start: nat, length: nat)
    requires last < U64 && start < U64
  {
    (last + U64 - start + 1) % U64 <= length
  }

  /** A record at or behind the start of its function passes the check exactly if it lies
      within the function, or if the computed length has wrapped to 0; one before the
      start is taken to lie almost the whole address space behind it, and passes too if
      it is right before. */
  lemma WithinLength(last: nat, start: nat, length: nat)
    requires last < U64 && start < U64
    ensures start <= last ==> (FitsLength(last, start, length) <==> last < start + length || last - start == U64 - 1)
    ensures last < start ==> (FitsLength(last, start, length) <==> U64 - (start - last) < length || last + 1 == start)
  {
  }

  predicate Addresses(addrs: seq<nat>) {
    forall i :: 0 <= i < |addrs| ==> addrs[i] < U64
  }

  /** Lengths are 32-bit words. */
  predicate Lengths(lens: seq<nat>) {
    forall i :: 0 <= i < |lens| ==> lens[i] < 0x1_0000_0000
  }

  /** The records from `from` up to the next function's, at `to`: increasing, the
      next function's address not among them, and not past this function's end. */
  ghost predicate Segment(addrs: seq<nat>, start: nat, length: nat, next: nat, from: nat, to: nat)
    requires Addresses(addrs) && start < U64
  {
    && from < to < |addrs| && addrs[to] == next
    && Open(addrs, next, from, to) && FitsLength(addrs[to - 1], start, length)
  }

  ghost predicate Open(addrs: seq<nat>, next: nat, from: nat, to: nat)
    requires to <= |addrs|
  {
    forall i :: from < i < to ==> addrs[i - 1] < addrs[i] && addrs[i] != next
  }

  ghost predicate Input(funcs: seq<nat>, lens: seq<nat>, addrs: seq<nat>) {
    |funcs| == |lens| > 0 && addrs != [] && Addresses(funcs) && Addresses(addrs) && Lengths(lens)
  }

  /** The first n functions start at these records. */
  ghost predicate Starts(funcs: seq<nat>, lens: seq<nat>, addrs: seq<nat>, idx: seq<nat>, n: nat)
    requires Input(funcs, lens, addrs)
  {
    && 0 < n <= |idx| && n <= |funcs| && idx[0] == 0 && addrs[0] == funcs[0]
    && forall f :: 0 < f < n ==> Segment(addrs, funcs[f - 1], lens[f - 1], funcs[f], idx[f - 1], idx[f])
  }

  /** The records are one segment per function, in the functions' order. */
  ghost predicate Dissected(funcs: seq<nat>, lens: seq<nat>, addrs: seq<nat>, idx: seq<nat>)
    requires Input(funcs, lens, addrs)
  {
    |idx| == |funcs| && Starts(funcs, lens, addrs, idx, |funcs|)
  }

  ghost predicate CanDissect(funcs: seq<nat>, lens: seq<nat>, addrs: seq<nat>)
    requires Input(funcs, lens, addrs)
  {
    exists idx :: Dissected(funcs, lens, addrs, idx)
  }

  /** Where the functions start is determined by the records. */
  lemma {:induction false} StartsAgree(funcs: seq<nat>, lens: seq<nat>, addrs: seq<nat>, idx: seq<nat>, jdx: seq<nat>,
                                       n: nat, f: nat)
    requires Input(funcs, lens, addrs)
    requires Starts(funcs, lens, addrs, idx, n) && Starts(funcs, lens, addrs, jdx, n) && f < n
    ensures idx[f] == jdx[f]
  {
    if f > 0 {
      StartsAgree(funcs, lens, addrs, idx, jdx, n, f - 1);
      assert Segment(addrs, funcs[f - 1], lens[f - 1], funcs[f], idx[f - 1], idx[f]);
      assert Segment(addrs, funcs[f - 1], lens[f - 1], funcs[f], jdx[f - 1], jdx[f]);
    }
  }

  lemma FewerStarts(funcs: seq<nat>, lens: seq<nat>, addrs: seq<nat>, idx: seq<nat>, n: nat, m: nat)
    requires Input(funcs, lens, addrs) && Starts(funcs, lens, addrs, idx, n) && 0 < m <= n
    ensures Starts(funcs, lens, addrs, idx, m)
  {
  }

  /** The first f starts are found, and the next one is not before i. */
  ghost predicate SearchedTo(funcs: seq<nat>, lens: seq<nat>, addrs: seq<nat>, idx: seq<nat>, f: nat, i: nat)
    requires Input(funcs, lens, addrs)
  {
    && |idx| == |funcs| && Starts(funcs, lens, addrs, idx, f) && idx[f - 1] < i <= |addrs|
    && (f < |funcs| ==> Open(addrs, funcs[f], idx[f - 1], i))
  }

  /** The next start of any dissection is at i or later, at i only if the record
      matches and the length fits, and later only if the record is larger than
      the one before. */
  lemma NextStart(funcs: seq<nat>, lens: seq<nat>, addrs: seq<nat>, idx: seq<nat>, f: nat, i: nat)
    requires Input(funcs, lens, addrs) && f < |funcs| && SearchedTo(funcs, lens, addrs, idx, f, i)
    requires CanDissect(funcs, lens, addrs)
    ensures i < |addrs|
    ensures addrs[i] == funcs[f] ==> FitsLength(addrs[i - 1], funcs[f - 1], lens[f - 1])
    ensures addrs[i] != funcs[f] ==> addrs[i - 1] < addrs[i]
  {
    var jdx :| Dissected(funcs, lens, addrs, jdx);
    FewerStarts(funcs, lens, addrs, jdx, |funcs|, f);
    StartsAgree(funcs, lens, addrs, idx, jdx, f, f - 1);
    assert Segment(addrs, funcs[f - 1], lens[f - 1], funcs[f], jdx[f - 1], jdx[f]);
    assert jdx[f] >= i;
  }

  /** One more function found. */
  lemma StartFound(funcs: seq<nat>, lens: seq<nat>, addrs: seq<nat>, idx: seq<nat>, f: nat, i: nat)
    requires Input(funcs, lens, addrs) && f < |funcs| && SearchedTo(funcs, lens, addrs, idx, f, i)
    requires i < |addrs| && addrs[i] == funcs[f] && FitsLength(addrs[i - 1], funcs[f - 1], lens[f - 1])
    ensures SearchedTo(funcs, lens, addrs, idx[f := i], f + 1, i + 1)
  {
  }

  /** One more record of the same function. */
  lemma StillOpen(funcs: seq<nat>, lens: seq<nat>, addrs: seq<nat>, idx: seq<nat>, f: nat, i: nat)
    requires Input(funcs, lens, addrs) && f < |funcs| && SearchedTo(funcs, lens, addrs, idx, f, i)
    requires i < |addrs| && addrs[i] != funcs[f] && addrs[i - 1] < addrs[i]
    ensures SearchedTo(funcs, lens, addrs, idx, f, i + 1)
  {
  }

  /** The search begins at the first record, which has to be the first function's. */
  lemma SearchBegins(funcs: seq<nat>, lens: seq<nat>, addrs: seq<nat>, idx: seq<nat>)
    requires Input(funcs, lens, addrs) && |idx| == |funcs| && idx[0] == 0
    ensures addrs[0] == funcs[0] ==> SearchedTo(funcs, lens, addrs, idx, 1, 1)
    ensures CanDissect(funcs, lens, addrs) ==> addrs[0] == funcs[0]
  {
  }

  lemma SearchDone(funcs: seq<nat>, lens: seq<nat>, addrs: seq<nat>, idx: seq<nat>, i: nat)
    requires Input(funcs, lens, addrs) && SearchedTo(funcs, lens, addrs, idx, |funcs|, i)
    ensures Dissected(funcs, lens, addrs, idx) && CanDissect(funcs, lens, addrs)
  {
    assert Dissected(funcs, lens, addrs, idx);
  }

  /** What each function's count adds up to. */
  ghost predicate Counts(addrs: seq<nat>, idx: seq<nat>, counts: seq<nat>, n: nat)
    requires n <= |idx| == |counts|
  {
    forall f :: 0 <= f < n ==> idx[f] + counts[f] == EndOf(addrs, idx, f)
  }

  lemma OneMoreCount(addrs: seq<nat>, idx: seq<nat>, counts: seq<nat>, f: nat, i: nat)
    requires f + 1 < |idx| == |counts| && Counts(addrs, idx, counts, f) && idx[f] <= i
    ensures Counts(addrs, idx[f + 1 := i], counts[f := i - idx[f]], f + 1)
  {
  }

  lemma LastCount(addrs: seq<nat>, idx: seq<nat>, counts: seq<nat>)
    requires 0 < |idx| == |counts| && Counts(addrs, idx, counts, |idx| - 1) && idx[|idx| - 1] <= |addrs|
    ensures Counts(addrs, idx, counts[|idx| - 1 := |addrs| - idx[|idx| - 1]], |idx|)
  {
  }

  lemma NoCounts(addrs: seq<nat>, idx: seq<nat>, counts: seq<nat>)
    requires |idx| == |counts|
    ensures Counts(addrs, idx, counts, 0)
  {
  }

  /** The records of function f end where the next function's begin. */
  function EndOf(addrs: seq<nat>, idx: seq<nat>, f: nat): nat
    requires f < |idx|
  {
    if f + 1 < |idx| then idx[f + 1] else |addrs|
  }

  /** Strictly increasing keys. */
  ghost predicate Increasing(keys: seq<nat>, from: nat, to: nat)
    requires to <= |keys|
  {
    forall i, j :: from <= i < j < to ==> keys[i] < keys[j]
  }

  lemma {:induction false} OpenIncreases(addrs: seq<nat>, next: nat, from: nat, to: nat, i: nat, j: nat)
    requires to <= |addrs| && Open(addrs, next, from, to) && from <= i < j < to
    ensures addrs[i] < addrs[j]
  {
    if i + 1 < j {
      OpenIncreases(addrs, next, from, to, i, j - 1);
    }
  }

  /** Every function but the last has increasing records, and they lie within it
      unless it starts at address 0 and has a record at the very last address, as
      its length is then computed as 0. */
  lemma CheckedSegment(funcs: seq<nat>, lens: seq<nat>, addrs: seq<nat>, idx: seq<nat>, f: nat)
    requires Input(funcs, lens, addrs) && Dissected(funcs, lens, addrs, idx) && f + 1 < |funcs|
    ensures idx[f] < idx[f + 1] < |addrs| && Increasing(addrs, idx[f], idx[f + 1])
    ensures addrs[idx[f]] == funcs[f]
    ensures (forall i :: idx[f] <= i < idx[f + 1] ==> funcs[f] <= addrs[i] < funcs[f] + lens[f]) <==>
            !(funcs[f] == 0 && addrs[idx[f + 1] - 1] == U64 - 1)
  {
    assert Segment(addrs, funcs[f], lens[f], funcs[f + 1], idx[f], idx[f + 1]);
    StartsMatch(funcs, lens, addrs, idx, f);
    forall i, j | idx[f] <= i < j < idx[f + 1]
      ensures addrs[i] < addrs[j]
    {
      OpenIncreases(addrs, funcs[f + 1], idx[f], idx[f + 1], i, j);
    }
  }

  /** There is such a function. */
  lemma LengthWraps()
    ensures var funcs, lens, addrs, idx := [0, 5], [64, 8], [0, U64 - 1, 5], [0, 2];
            Input(funcs, lens, addrs) && Dissected(funcs, lens, addrs, idx) && addrs[1] >= funcs[0] + lens[0]
  {
    var funcs: seq<nat>, lens: seq<nat>, addrs: seq<nat>, idx: seq<nat> := [0, 5], [64, 8], [0, U64 - 1, 5], [0, 2];
    assert Segment(addrs, funcs[0], lens[0], funcs[1], idx[0], idx[1]);
  }

  /** Each function starts at a record with its address. */
  lemma StartsMatch(funcs: seq<nat>, lens: seq<nat>, addrs: seq<nat>, idx: seq<nat>, f: nat)
    requires Input(funcs, lens, addrs) && Dissected(funcs, lens, addrs, idx) && f < |funcs|
    ensures idx[f] < EndOf(addrs, idx, f) <= |addrs| && addrs[idx[f]] == funcs[f]
  {
    assert f > 0 ==> Segment(addrs, funcs[f - 1], lens[f - 1], funcs[f], idx[f - 1], idx[f]);
    assert f + 1 < |funcs| ==> Segment(addrs, funcs[f], lens[f], funcs[f + 1], idx[f], idx[f + 1]);
  }

  /** Every record belongs to exactly one function. */
  lemma {:induction false} Partition(funcs: seq<nat>, lens: seq<nat>, addrs: seq<nat>, idx: seq<nat>, n: nat, i: nat)
    requires Input(funcs, lens, addrs) && Dissected(funcs, lens, addrs, idx)
    requires 0 < n <= |funcs| && i < EndOf(addrs, idx, n - 1)
    ensures exists f :: 0 <= f < n && idx[f] <= i < EndOf(addrs, idx, f)
    ensures forall f, g ::
              0 <= f < g < n && idx[f] <= i < EndOf(addrs, idx, f) ==> !(idx[g] <= i < EndOf(addrs, idx, g))
  {
    forall f, g | 0 <= f < g < n
      ensures EndOf(addrs, idx, f) <= idx[g]
    {
      StartsOrdered(funcs, lens, addrs, idx, f, g);
    }
    if idx[n - 1] > i {
      assert EndOf(addrs, idx, n - 2) == idx[n - 1];
      Partition(funcs, lens, addrs, idx, n - 1, i);
    }
  }

  lemma {:induction false} StartsOrdered(funcs: seq<nat>, lens: seq<nat>, addrs: seq<nat>, idx: seq<nat>, f: nat,
                                         g: nat)
    requires Input(funcs, lens, addrs) && Dissected(funcs, lens, addrs, idx) && f < g < |funcs|
    ensures EndOf(addrs, idx, f) <= idx[g]
  {
    if f + 1 < g {
      StartsOrdered(funcs, lens, addrs, idx, f, g - 1);
      StartsMatch(funcs, lens, addrs, idx, g - 1);
    }
  }

  /** What a lookup gives: nothing if there is no key or the first is larger, and
      otherwise the key before the first larger one. */
  ghost predicate Found(keys: seq<nat>, from: nat, to: nat, key: nat, r: Option<nat>)
    requires to <= |keys|
  {
    match r
    case None => from >= to || key < keys[from]
    case Some(v) =>
      from <= v < to && (forall i :: from <= i <= v ==> keys[i] <= key) && (v + 1 < to ==> key < keys[v + 1])
  }

  /** What a lookup is for: the last key that is not larger, if there is one. Those
      skipped are not larger either. */
  ghost predicate LastAtOrBefore(keys: seq<nat>, first: nat, from: nat, to: nat, key: nat, r: Option<nat>)
    requires to <= |keys|
  {
    match r
    case None => forall i :: from <= i < to ==> key < keys[i]
    case Some(v) => from <= v < to && forall i :: first <= i < to ==> (keys[i] <= key <==> i <= v)
  }

  /** Every lookup among these keys gives what it is for, whatever is skipped. */
  ghost predicate LooksUpRight(keys: seq<nat>, first: nat, to: nat)
    requires to <= |keys|
  {
    forall from: nat, key: nat, r ::
      first <= from && Found(keys, from, to, key, r) ==> LastAtOrBefore(keys, first, from, to, key, r)
  }

  ghost predicate NeverFalls(keys: seq<nat>, first: nat, to: nat)
    requires to <= |keys|
  {
    forall i :: first < i < to ==> keys[i - 1] <= keys[i]
  }

  lemma {:induction false} NeverFallsFar(keys: seq<nat>, first: nat, to: nat, i: nat, j: nat)
    requires to <= |keys| && NeverFalls(keys, first, to) && first <= i <= j < to
    ensures keys[i] <= keys[j]
  {
    if i < j {
      NeverFallsFar(keys, first, to, i, j - 1);
    }
  }

  lemma RightLookup(keys: seq<nat>, first: nat, from: nat, to: nat, key: nat, r: Option<nat>)
    requires first <= from && to <= |keys| && NeverFalls(keys, first, to) && Found(keys, from, to, key, r)
    ensures LastAtOrBefore(keys, first, from, to, key, r)
  {
    forall i, j | first <= i <= j < to
      ensures keys[i] <= keys[j]
    {
      NeverFallsFar(keys, first, to, i, j);
    }
    if r.Some? {
      forall i | first <= i < to
        ensures keys[i] <= key <==> i <= r.value
      {
        assert i <= r.value ==> keys[i] <= keys[r.value];
        assert r.value < i ==> keys[r.value + 1] <= keys[i];
      }
    }
  }

  /** Lookups are right exactly if the keys never fall. */
  lemma LooksUpRightIff(keys: seq<nat>, first: nat, to: nat)
    requires to <= |keys|
    ensures LooksUpRight(keys, first, to) <==> NeverFalls(keys, first, to)
  {
    if NeverFalls(keys, first, to) {
      forall from: nat, key: nat, r | first <= from && Found(keys, from, to, key, r)
        ensures LastAtOrBefore(keys, first, from, to, key, r)
      {
        RightLookup(keys, first, from, to, key, r);
      }
    } else {
      var i :| first < i < to && keys[i] < keys[i - 1];
      var from: nat := i - 1;
      assert Found(keys, from, to, keys[i], None);
      assert !LastAtOrBefore(keys, first, from, to, keys[i], None);
    }
  }

  const INSN_OFF_SIZE: nat := 4       // what a lookup reads of a record
  const ADDR_SIZE: nat := 8

  /** All the data for jited line info is there, in records that hold an address. */
  predicate HasJited(insnOffs: seq<nat>, addrs: seq<nat>, funcs: seq<nat>, lens: seq<nat>, jitedRecSize: nat) {
    funcs != [] && addrs != [] && |addrs| == |insnOffs| && |lens| == |funcs| && ADDR_SIZE <= jitedRecSize
  }

  class LineInfo {
    const insnOffs: seq<nat>                  // raw_linfo
    const addrs: seq<nat>                     // raw_jited_linfo
    ghost const funcs: seq<nat>
    ghost const lens: seq<nat>
    const nrJitedFunc: nat
    const nrJitedLinfoPerFunc: array<nat>
    const jitedLinfoFuncIdx: array<nat>

    /** A usable object: dissected, unless it carries no jited line info. */
    ghost predicate Valid()
      reads this, nrJitedLinfoPerFunc, jitedLinfoFuncIdx
    {
      && insnOffs != []
      && (nrJitedFunc > 0 ==>
            && |insnOffs| == |addrs| && nrJitedFunc == |funcs| == jitedLinfoFuncIdx.Length == nrJitedLinfoPerFunc.Length
            && Input(funcs, lens, addrs) && Dissected(funcs, lens, addrs, jitedLinfoFuncIdx[..])
            && Counts(addrs, jitedLinfoFuncIdx[..], nrJitedLinfoPerFunc[..], |funcs|))
    }

    /** bpf_prog_linfo__new up to the dissection: the records are copied; the
        jited ones only when all of their data is there. */
    constructor (insnOffs: seq<nat>, addrs: seq<nat>, funcs: seq<nat>, lens: seq<nat>, jitedRecSize: nat)
      ensures this.insnOffs == insnOffs && this.addrs == addrs && this.funcs == funcs && this.lens == lens
      ensures nrJitedFunc == if HasJited(insnOffs, addrs, funcs, lens, jitedRecSize) then |funcs| else 0
      ensures jitedLinfoFuncIdx.Length == nrJitedLinfoPerFunc.Length == |funcs|
      ensures jitedLinfoFuncIdx != nrJitedLinfoPerFunc && fresh(jitedLinfoFuncIdx) && fresh(nrJitedLinfoPerFunc)
    {
      this.insnOffs, this.addrs, this.funcs, this.lens := insnOffs, addrs, funcs, lens;
      if funcs == [] || addrs == [] || |addrs| != |insnOffs| || jitedRecSize < ADDR_SIZE || |lens| != |funcs| {
        nrJitedFunc := 0;
      } else {
        nrJitedFunc := |funcs|;
      }
      nrJitedLinfoPerFunc := new nat[|funcs|];
      jitedLinfoFuncIdx := new nat[|funcs|];
    }

    /** dissect_jited_func: succeeds exactly when the records can be dissected. */
    method DissectJitedFunc(ksymFunc: seq<nat>, ksymLen: seq<nat>) returns (ok: bool)
      requires Input(ksymFunc, ksymLen, addrs) && nrJitedFunc == |ksymFunc| && jitedLinfoFuncIdx != nrJitedLinfoPerFunc
      requires jitedLinfoFuncIdx.Length == nrJitedLinfoPerFunc.Length == |ksymFunc|
      modifies jitedLinfoFuncIdx, nrJitedLinfoPerFunc
      ensures ok <==> CanDissect(ksymFunc, ksymLen, addrs)
      ensures ok ==> Dissected(ksymFunc, ksymLen, addrs, jitedLinfoFuncIdx[..])
      ensures ok ==> Counts(addrs, jitedLinfoFuncIdx[..], nrJitedLinfoPerFunc[..], |ksymFunc|)
    {
      hide Starts, CanDissect, SearchedTo, Dissected, Segment, Open, FitsLength, Counts;
      jitedLinfoFuncIdx[0] := 0;
      SearchBegins(ksymFunc, ksymLen, addrs, jitedLinfoFuncIdx[..]);
      if ksymFunc[0] != addrs[0] {
        return false;
      }
      var prevI: nat, i: nat, f: nat := 0, 1, 1;
      NoCounts(addrs, jitedLinfoFuncIdx[..], nrJitedLinfoPerFunc[..]);
      while i < |addrs| && f < nrJitedFunc
        invariant 1 <= f <= nrJitedFunc && prevI < i <= |addrs| && prevI == jitedLinfoFuncIdx[f - 1]
        invariant SearchedTo(ksymFunc, ksymLen, addrs, jitedLinfoFuncIdx[..], f, i)
        invariant Counts(addrs, jitedLinfoFuncIdx[..], nrJitedLinfoPerFunc[..], f - 1)
      {
        ghost var idx := jitedLinfoFuncIdx[..];
        if CanDissect(ksymFunc, ksymLen, addrs) {
          NextStart(ksymFunc, ksymLen, addrs, idx, f, i);
        }
        var last := addrs[i - 1];
        if ksymFunc[f] == addrs[i] {
          jitedLinfoFuncIdx[f] := i;
          if !FitsLength(last, ksymFunc[f - 1], ksymLen[f - 1]) {
            return false;
          }
          ghost var counts := nrJitedLinfoPerFunc[..];
          var n: nat := i - prevI;
          nrJitedLinfoPerFunc[f - 1] := n;
          OneMoreCount(addrs, idx, counts, f - 1, i);
          assert nrJitedLinfoPerFunc[..] == counts[f - 1 := n];
          StartFound(ksymFunc, ksymLen, addrs, idx, f, i);
          assert jitedLinfoFuncIdx[..] == idx[f := i];
          prevI := i;
          f := f + 1;
        } else if addrs[i] <= last {
          return false;
        } else {
          StillOpen(ksymFunc, ksymLen, addrs, idx, f, i);
        }
        i := i + 1;
      }
      if f != nrJitedFunc {
        if CanDissect(ksymFunc, ksymLen, addrs) {
          NextStart(ksymFunc, ksymLen, addrs, jitedLinfoFuncIdx[..], f, i);
        }
        return false;
      }
      SearchDone(ksymFunc, ksymLen, addrs, jitedLinfoFuncIdx[..], i);
      ghost var counts := nrJitedLinfoPerFunc[..];
      var n: nat := |addrs| - prevI;
      nrJitedLinfoPerFunc[nrJitedFunc - 1] := n;
      LastCount(addrs, jitedLinfoFuncIdx[..], counts);
      assert nrJitedLinfoPerFunc[..] == counts[nrJitedFunc - 1 := n];
      ok := true;
    }

    /** bpf_prog_linfo__new: nothing without line info or with records too short to
        be searched, and nothing if the jited line info is there but cannot be
        dissected; without jited line info, or with records too short for an
        address, an object that has none. */
    static method New(insnOffs: seq<nat>, recSize: nat, addrs: seq<nat>, jitedRecSize: nat, funcs: seq<nat>,
                      lens: seq<nat>)
      returns (r: Option<LineInfo>)
      requires Addresses(addrs) && Addresses(funcs) && Lengths(lens)
      ensures r.None? <==> || insnOffs == [] || recSize < INSN_OFF_SIZE
                           || (HasJited(insnOffs, addrs, funcs, lens, jitedRecSize) && !CanDissect(funcs, lens, addrs))
      ensures r.Some? ==>
                && fresh(r.value) && r.value.Valid()
                && r.value.insnOffs == insnOffs && r.value.addrs == addrs && r.value.funcs == funcs
      ensures r.Some? ==>
                r.value.nrJitedFunc == if HasJited(insnOffs, addrs, funcs, lens, jitedRecSize) then |funcs| else 0
    {
      hide Dissected, CanDissect;
      if insnOffs == [] {
        return None;
      }
      if recSize < INSN_OFF_SIZE {
        return None;
      }
      var info := new LineInfo(insnOffs, addrs, funcs, lens, jitedRecSize);
      if info.nrJitedFunc == 0 {
        return Some(info);
      }
      var ok := info.DissectJitedFunc(funcs, lens);
      if !ok {
        return None;
      }
      r := Some(info);
    }

    /** bpf_prog_linfo__lfind_addr_func: the last record of the function, not
        counting the skipped ones, before the first that is past the address. */
    method LfindAddrFunc(addr: nat, funcIdx: nat, nrSkip: nat) returns (r: Option<nat>)
      requires Valid()
      ensures funcIdx >= nrJitedFunc ==> r == None
      ensures funcIdx < nrJitedFunc ==>
                var start, end := jitedLinfoFuncIdx[funcIdx] + nrSkip, EndOf(addrs, jitedLinfoFuncIdx[..], funcIdx);
                end <= |addrs| && Found(addrs, start, end, addr, r)
    {
      hide Dissected;
      if funcIdx >= nrJitedFunc {
        return None;
      }
      StartsMatch(funcs, lens, addrs, jitedLinfoFuncIdx[..], funcIdx);
      var nrLinfo := nrJitedLinfoPerFunc[funcIdx];
      if nrSkip >= nrLinfo {
        return None;
      }
      var start: nat := jitedLinfoFuncIdx[funcIdx] + nrSkip;
      if addr < addrs[start] {
        return None;
      }
      nrLinfo := nrLinfo - nrSkip;
      var record: nat := start;
      for i := 0 to nrLinfo
        invariant record == start + i
        invariant forall j :: start <= j < record ==> addrs[j] <= addr
      {
        if addr < addrs[record] {
          break;
        }
        record := record + 1;
      }
      r := Some(record - 1);
    }

    /** bpf_prog_linfo__lfind: the same over all records, by instruction offset. */
    method Lfind(insnOff: nat, nrSkip: nat) returns (r: Option<nat>)
      requires Valid()
      ensures Found(insnOffs, nrSkip, |insnOffs|, insnOff, r)
    {
      var nrLinfo := |insnOffs|;
      if nrSkip >= nrLinfo {
        return None;
      }
      if insnOff < insnOffs[nrSkip] {
        return None;
      }
      nrLinfo := nrLinfo - nrSkip;
      var record: nat := nrSkip;
      for i := 0 to nrLinfo
        invariant record == nrSkip + i
        invariant forall j :: nrSkip <= j < record ==> insnOffs[j] <= insnOff
      {
        if insnOff < insnOffs[record] {
          break;
        }
        record := record + 1;
      }
      r := Some(record - 1);
    }
  }

  /** All lookups in a program are right exactly if the addresses of the last
      function never fall; those of the others are checked. */
  lemma LookupsAreRight(funcs: seq<nat>, lens: seq<nat>, addrs: seq<nat>, idx: seq<nat>)
    requires Input(funcs, lens, addrs) && Dissected(funcs, lens, addrs, idx)
    ensures forall f :: 0 <= f < |funcs| ==> EndOf(addrs, idx, f) <= |addrs|
    ensures (forall f :: 0 <= f < |funcs| ==> LooksUpRight(addrs, idx[f], EndOf(addrs, idx, f))) <==>
            NeverFalls(addrs, idx[|funcs| - 1], |addrs|)
  {
    forall f | 0 <= f < |funcs|
      ensures EndOf(addrs, idx, f) <= |addrs|
      ensures LooksUpRight(addrs, idx[f], EndOf(addrs, idx, f)) <==> NeverFalls(addrs, idx[f], EndOf(addrs, idx, f))
      ensures f + 1 < |funcs| ==> NeverFalls(addrs, idx[f], EndOf(addrs, idx, f))
    {
      StartsMatch(funcs, lens, addrs, idx, f);
      LooksUpRightIff(addrs, idx[f], EndOf(addrs, idx, f));
      if f + 1 < |funcs| {
        CheckedSegment(funcs, lens, addrs, idx, f);
      }
    }
  }

  /** Nothing keeps the addresses of the last function, here the only one, from
      falling, and then some lookup in it is wrong. */
  lemma LastSegmentIsUnchecked()
    ensures var funcs, lens, addrs, idx := [100], [50], [100, 140, 120], [0];
            Input(funcs, lens, addrs) && Dissected(funcs, lens, addrs, idx) && !LooksUpRight(addrs, 0, |addrs|)
  {
    var funcs: seq<nat>, lens: seq<nat>, addrs: seq<nat>, idx: seq<nat> := [100], [50], [100, 140, 120], [0];
    assert addrs[1] > addrs[2];
    LookupsAreRight(funcs, lens, addrs, idx);
  }
}
