/** btf_dedup_strings (btf.c): the string section with unused and repeated
    strings taken out. */
module BtfStrings {
  const NUL := '\0'

  /** A string section as btf_parse_str_sec accepts it. */
  ghost predicate Section(data: seq<char>) {
    |data| > 0 && data[0] == NUL && data[|data| - 1] == NUL
  }

  /** strlen of the string at an offset. */
  function StrLen(data: seq<char>, off: nat): (n: nat)
    requires off < |data| && data[|data| - 1] == NUL
    ensures off + n < |data| && data[off + n] == NUL
    ensures forall i :: off <= i < off + n ==> data[i] != NUL
    decreases |data| - off
  {
    if data[off] == NUL then 0 else 1 + StrLen(data, off + 1)
  }

  function StrAt(data: seq<char>, off: nat): (s: string)
    requires off < |data| && data[|data| - 1] == NUL
    ensures NUL !in s
  {
    data[off..off + StrLen(data, off)]
  }

  /** An offset at which a string of the section starts. */
  predicate IsStart(data: seq<char>, off: nat) {
    off < |data| && (off == 0 || data[off - 1] == NUL)
  }

  /** Order of strcmp. */
  predicate StrLeq(a: string, b: string) {
    a == [] || (b != [] && (if a[0] == b[0] then StrLeq(a[1..], b[1..]) else a[0] < b[0]))
  }

  lemma {:induction false} StrLeqTotal(a: string, b: string)
    ensures StrLeq(a, b) || StrLeq(b, a)
    ensures StrLeq(a, b) && StrLeq(b, a) ==> a == b
  {
    if a != [] && b != [] && a[0] == b[0] {
      StrLeqTotal(a[1..], b[1..]);
      assert a == [a[0]] + a[1..] && b == [b[0]] + b[1..];
    }
  }

  lemma {:induction false} StrLeqTrans(a: string, b: string, c: string)
    requires StrLeq(a, b) && StrLeq(b, c)
    ensures StrLeq(a, c)
  {
    if a != [] && a[0] == b[0] == c[0] {
      StrLeqTrans(a[1..], b[1..], c[1..]);
    }
  }

  /** Strings laid out one after the other, each with its terminator. */
  ghost function Layout(ss: seq<string>): seq<char> {
    if ss == [] then [] else Layout(ss[..|ss| - 1]) + ss[|ss| - 1] + [NUL]
  }

  ghost function Place(ss: seq<string>, k: nat): nat
    requires k <= |ss|
  {
    |Layout(ss[..k])|
  }

  ghost predicate Plain(ss: seq<string>) {
    forall k :: 0 <= k < |ss| ==> NUL !in ss[k]
  }

  lemma LayoutAppend(ss: seq<string>, s: string)
    ensures Layout(ss + [s]) == Layout(ss) + s + [NUL]
    ensures forall k :: 0 <= k <= |ss| ==> Place(ss + [s], k) == Place(ss, k)
    ensures Place(ss + [s], |ss| + 1) == |Layout(ss)| + |s| + 1
  {
    assert (ss + [s])[..|ss|] == ss;
    forall k | 0 <= k <= |ss|
      ensures Place(ss + [s], k) == Place(ss, k)
    {
      assert (ss + [s])[..k] == ss[..k];
    }
    assert (ss + [s])[..|ss| + 1] == ss + [s];
  }

  /** A string does not see what follows the section it was in. */
  lemma PrefixString(e: seq<char>, d: seq<char>, off: nat)
    requires off < |e| <= |d| && e[|e| - 1] == NUL && d[|d| - 1] == NUL && d[..|e|] == e
    ensures StrAt(d, off) == StrAt(e, off)
  {
    assert forall i :: 0 <= i < |e| ==> d[i] == d[..|e|][i];
    StrLenIs(d, off, StrLen(e, off));
  }

  /** The section's string at a place. */
  ghost predicate PlacedAt(d: seq<char>, off: nat, s: string) {
    off < |d| && d[|d| - 1] == NUL && IsStart(d, off) && StrAt(d, off) == s
  }

  lemma LayoutLast(p: seq<string>, s: string)
    requires NUL !in s
    ensures PlacedAt(Layout(p + [s]), |Layout(p)|, s)
  {
    LayoutAppend(p, s);
    LayoutEnds(p);
    hide Layout, PlacedAt;
    LastString(Layout(p), s);
  }

  /** A string put behind a section. */
  lemma LastString(front: seq<char>, s: string)
    requires NUL !in s && (front != [] ==> front[|front| - 1] == NUL)
    ensures PlacedAt(front + s + [NUL], |front|, s)
  {
    var d, o := front + s + [NUL], |front|;
    assert d[o..o + |s|] == s;
    assert forall i :: o <= i < o + |s| ==> d[i] == s[i - o];
    StrLenIs(d, o, |s|);
  }

  /** Each string of a layout is found where it was placed. */
  lemma {:induction false} LayoutAt(ss: seq<string>, k: nat)
    requires Plain(ss) && k < |ss|
    ensures PlacedAt(Layout(ss), Place(ss, k), ss[k])
    decreases |ss|
  {
    var n := |ss| - 1;
    var p, s := ss[..n], ss[n];
    assert ss == p + [s];
    LayoutAppend(p, s);
    assert p[..n] == p;
    if k == n {
      LayoutLast(p, s);
    } else {
      LayoutAt(p, k);
      assert Layout(ss)[..|Layout(p)|] == Layout(p);
      PrefixString(Layout(p), Layout(ss), Place(p, k));
    }
  }

  lemma {:induction false} LayoutEnds(ss: seq<string>)
    ensures |Layout(ss)| > 0 ==> Layout(ss)[|Layout(ss)| - 1] == NUL
    ensures ss != [] ==> |Layout(ss)| > 0
  {
  }

  lemma {:induction false} StrLenIs(data: seq<char>, off: nat, n: nat)
    requires off + n < |data| && data[|data| - 1] == NUL && data[off + n] == NUL
    requires forall i :: off <= i < off + n ==> data[i] != NUL
    ensures StrLen(data, off) == n
    decreases n
  {
    if n > 0 {
      StrLenIs(data, off + 1, n - 1);
    }
  }

  /** The strings of a layout start at their places and nowhere else. */
  lemma {:induction false} LayoutStarts(ss: seq<string>, off: nat)
    requires Plain(ss) && IsStart(Layout(ss), off)
    ensures exists k :: 0 <= k < |ss| && Place(ss, k) == off
    decreases |ss|
  {
    var n := |ss| - 1;
    var p, s := ss[..n], ss[n];
    assert ss == p + [s];
    LayoutAppend(p, s);
    assert p[..n] == p;
    LayoutEnds(p);
    if off < |Layout(p)| {
      assert Layout(ss)[..|Layout(p)|] == Layout(p);
      LayoutStarts(p, off);
      var k :| 0 <= k < |p| && Place(p, k) == off;
      assert Place(ss, k) == off;
    } else if off == |Layout(p)| {
      assert Place(ss, n) == off;
    }
  }

  /** struct btf_str_ptr: a string by its original offset. */
  datatype StrPtr = StrPtr(off: nat, used: bool, newOff: nat)

  /** The string behind a pointer. */
  function Text(data: seq<char>, off: nat): (s: string)
    ensures NUL !in s
  {
    if off < |data| && data[|data| - 1] == NUL then StrAt(data, off) else []
  }

  type Order = (StrPtr, StrPtr) -> bool

  ghost predicate TotalOrder(leq: Order) {
    && (forall a, b :: leq(a, b) || leq(b, a))
    && (forall a, b, c :: leq(a, b) && leq(b, c) ==> leq(a, c))
  }

  ghost predicate Sorted(s: seq<StrPtr>, leq: Order) {
    forall i, j :: 0 <= i < j < |s| ==> leq(s[i], s[j])
  }

  ghost predicate DistinctOffs(s: seq<StrPtr>) {
    forall i, j :: 0 <= i < j < |s| ==> s[i].off != s[j].off
  }

  ghost predicate SamePtrs(s: seq<StrPtr>, t: seq<StrPtr>) {
    |s| == |t| && (forall e :: e in s <==> e in t) && DistinctOffs(t)
  }

  function InsertAt(x: StrPtr, s: seq<StrPtr>, i: nat): (t: seq<StrPtr>)
    requires i <= |s|
    ensures |t| == |s| + 1 && t[i] == x
    ensures forall j :: 0 <= j < i ==> t[j] == s[j]
    ensures forall j :: i < j < |t| ==> t[j] == s[j - 1]
  {
    s[..i] + [x] + s[i..]
  }

  lemma InsertMembers(x: StrPtr, s: seq<StrPtr>, i: nat)
    requires i <= |s|
    ensures forall e :: e in InsertAt(x, s, i) <==> e == x || e in s
  {
    assert s == s[..i] + s[i..];
  }

  lemma InsertDistinct(x: StrPtr, s: seq<StrPtr>, i: nat)
    requires i <= |s| && DistinctOffs(s) && forall e :: e in s ==> e.off != x.off
    ensures DistinctOffs(InsertAt(x, s, i))
  {
  }

  method InsertSorted(x: StrPtr, s: seq<StrPtr>, leq: Order) returns (t: seq<StrPtr>)
    requires TotalOrder(leq) && Sorted(s, leq) && DistinctOffs(s) && forall e :: e in s ==> e.off != x.off
    ensures Sorted(t, leq) && |t| == |s| + 1 && DistinctOffs(t)
    ensures forall e :: e in t <==> e == x || e in s
  {
    var i := 0;
    while i < |s| && !leq(x, s[i])
      invariant i <= |s| && forall j :: 0 <= j < i ==> leq(s[j], x)
    {
      i := i + 1;
    }
    InsertMembers(x, s, i);
    InsertDistinct(x, s, i);
    t := InsertAt(x, s, i);
  }

  /** Stands for qsort: some sorting of the same pointers. */
  method QSort(s: seq<StrPtr>, leq: Order) returns (t: seq<StrPtr>)
    requires TotalOrder(leq) && DistinctOffs(s)
    ensures Sorted(t, leq) && SamePtrs(s, t)
  {
    t := [];
    for i := 0 to |s|
      invariant Sorted(t, leq) && SamePtrs(s[..i], t)
    {
      assert s[..i + 1] == s[..i] + [s[i]];
      forall e | e in t
        ensures e.off != s[i].off
      {
        assert e in s[..i];
      }
      t := InsertSorted(s[i], t, leq);
    }
    assert s[..|s|] == s;
  }

  function ContentOrder(data: seq<char>): Order {
    (a: StrPtr, b: StrPtr) => StrLeq(Text(data, a.off), Text(data, b.off))
  }

  function OffsetOrder(): Order {
    (a: StrPtr, b: StrPtr) => a.off <= b.off
  }

  lemma ContentOrderTotal(data: seq<char>)
    ensures TotalOrder(ContentOrder(data))
  {
    var leq := ContentOrder(data);
    forall a, b
      ensures leq(a, b) || leq(b, a)
    {
      StrLeqTotal(Text(data, a.off), Text(data, b.off));
    }
    forall a, b, c | leq(a, b) && leq(b, c)
      ensures leq(a, c)
    {
      StrLeqTrans(Text(data, a.off), Text(data, b.off), Text(data, c.off));
    }
  }

  /** The pointers are in the order of their offsets and cover exactly the starts. */
  ghost predicate IndexOf(data: seq<char>, ptrs: seq<StrPtr>) {
    && |ptrs| > 0 && ptrs[0].off == 0
    && (forall i, j :: 0 <= i < j < |ptrs| ==> ptrs[i].off < ptrs[j].off)
    && (forall i :: 0 <= i < |ptrs| ==> IsStart(data, ptrs[i].off))
    && (forall off: nat :: IsStart(data, off) ==> HasOff(ptrs, off))
  }

  ghost predicate HasOff(ptrs: seq<StrPtr>, off: nat) {
    exists i :: 0 <= i < |ptrs| && ptrs[i].off == off
  }

  /** First loop of btf_dedup_strings: build the index of all strings. */
  method BuildIndex(data: seq<char>) returns (ptrs: seq<StrPtr>)
    requires Section(data)
    ensures IndexOf(data, ptrs)
    ensures forall i :: 0 <= i < |ptrs| ==> !ptrs[i].used
  {
    ptrs := [];
    var p := 0;
    while p < |data|
      invariant p <= |data| && (p < |data| ==> IsStart(data, p))
      invariant |ptrs| > 0 <==> p > 0
      invariant |ptrs| > 0 ==> ptrs[0].off == 0
      invariant forall i :: 0 <= i < |ptrs| ==> ptrs[i].off < p && !ptrs[i].used && IsStart(data, ptrs[i].off)
      invariant forall i, j :: 0 <= i < j < |ptrs| ==> ptrs[i].off < ptrs[j].off
      invariant forall off: nat :: IsStart(data, off) && off < p ==> HasOff(ptrs, off)
    {
      var n := StrLen(data, p);
      ghost var before := ptrs;
      ptrs := ptrs + [StrPtr(p, false, 0)];
      forall off: nat | IsStart(data, off) && off < p + n + 1
        ensures HasOff(ptrs, off)
      {
        if off < p {
          assert HasOff(before, off);
          var i :| 0 <= i < |before| && before[i].off == off;
          assert ptrs[i].off == off;
        } else {
          assert off == p;
          assert ptrs[|before|].off == off;
        }
      }
      p := p + n + 1;
    }
  }

  /** bsearch over the index, by address only. */
  method Lookup(ptrs: seq<StrPtr>, off: nat) returns (found: bool, at: nat)
    requires forall i, j :: 0 <= i < j < |ptrs| ==> ptrs[i].off < ptrs[j].off
    ensures found <==> HasOff(ptrs, off)
    ensures found ==> at < |ptrs| && ptrs[at].off == off
  {
    var lo, hi := 0, |ptrs|;
    while lo < hi
      invariant 0 <= lo <= hi <= |ptrs|
      invariant forall i :: 0 <= i < lo ==> ptrs[i].off < off
      invariant forall i :: hi <= i < |ptrs| ==> off < ptrs[i].off
    {
      var mid := (lo + hi) / 2;
      if ptrs[mid].off == off {
        return true, mid;
      } else if off < ptrs[mid].off {
        hi := mid;
      } else {
        lo := mid + 1;
      }
    }
    return false, 0;
  }

  /** A string and the offset it was placed at. */
  ghost predicate HasPlace(emitted: seq<string>, s: string, off: nat) {
    exists k :: 0 <= k < |emitted| && emitted[k] == s && off == Place(emitted, k)
  }

  ghost predicate UsedText(data: seq<char>, s: seq<StrPtr>, n: nat, text: string) {
    exists a :: 0 <= a < n && a < |s| && s[a].used && Text(data, s[a].off) == text
  }

  ghost predicate Distinct(ss: seq<string>) {
    forall i, j :: 0 <= i < j < |ss| ==> ss[i] != ss[j]
  }

  /** In a layout of distinct strings the text tells where it starts. */
  lemma TextTellsPlace(ss: seq<string>, a: nat, b: nat)
    requires Plain(ss) && Distinct(ss) && IsStart(Layout(ss), a) && IsStart(Layout(ss), b)
    requires Text(Layout(ss), a) == Text(Layout(ss), b)
    ensures a == b
  {
    LayoutStarts(ss, a);
    LayoutStarts(ss, b);
    var i :| 0 <= i < |ss| && Place(ss, i) == a;
    var j :| 0 <= j < |ss| && Place(ss, j) == b;
    LayoutAt(ss, i);
    LayoutAt(ss, j);
  }

  ghost predicate SameText(data: seq<char>, s: seq<StrPtr>, i: nat, j: nat) {
    i < |s| && j < |s| && Text(data, s[i].off) == Text(data, s[j].off)
  }

  ghost predicate SameStrings(s: seq<StrPtr>, t: seq<StrPtr>) {
    |s| == |t| && forall i :: 0 <= i < |s| ==> t[i].off == s[i].off && t[i].used == s[i].used
  }

  /** The groups below n are dealt with: each string that is used was emitted
      once, and all its pointers know where. */
  ghost predicate GroupsDone(data: seq<char>, s: seq<StrPtr>, t: seq<StrPtr>, emitted: seq<string>, n: nat) {
    && n <= |s| && SameStrings(s, t)
    && Plain(emitted) && Distinct(emitted)
    && (forall a, b :: 0 <= a < n <= b < |s| ==> !SameText(data, s, a, b))
    && (forall j :: 0 <= j < n && UsedText(data, s, n, Text(data, s[j].off)) ==>
      HasPlace(emitted, Text(data, s[j].off), t[j].newOff))
    && (forall k :: 0 <= k < |emitted| ==> UsedText(data, s, n, emitted[k]))
    && FirstFirst(data, s, emitted, n)
  }

  /** If the smallest string is used, it is the first to be emitted. */
  ghost predicate FirstFirst(data: seq<char>, s: seq<StrPtr>, emitted: seq<string>, n: nat) {
    0 < n <= |s| && UsedText(data, s, n, Text(data, s[0].off)) ==> |emitted| > 0 && emitted[0] == Text(data, s[0].off)
  }

  lemma FirstFirstNext(data: seq<char>, s: seq<StrPtr>, t: seq<StrPtr>, emitted: seq<string>, grp: nat, i: nat)
    requires GroupsDone(data, s, t, emitted, grp) && IsGroup(data, s, grp, i)
    ensures FirstFirst(data, s, emitted + [Text(data, s[grp].off)], i)
    ensures !GroupUsed(s, grp, i) ==> FirstFirst(data, s, emitted, i)
  {
    hide Text, Layout, HasPlace;
    var first := Text(data, s[0].off);
    if UsedText(data, s, i, first) {
      var a :| 0 <= a < i && s[a].used && Text(data, s[a].off) == first;
      if grp > 0 {
        assert a >= grp ==> !SameText(data, s, 0, a);
        assert UsedText(data, s, grp, first);
      } else {
        assert |emitted| > 0 ==> UsedText(data, s, grp, emitted[0]);
      }
    }
  }

  lemma HasPlaceKept(emitted: seq<string>, e: string, s: string, off: nat)
    requires HasPlace(emitted, s, off)
    ensures HasPlace(emitted + [e], s, off)
  {
    LayoutAppend(emitted, e);
    var k :| 0 <= k < |emitted| && emitted[k] == s && off == Place(emitted, k);
    assert (emitted + [e])[k] == s;
  }

  ghost predicate IsGroup(data: seq<char>, s: seq<StrPtr>, grp: nat, i: nat) {
    && grp < i <= |s|
    && (forall j :: grp <= j < i ==> SameText(data, s, grp, j))
    && (i < |s| ==> !SameText(data, s, grp, i))
  }

  /** After a whole group come only other strings. */
  lemma GroupEnds(data: seq<char>, s: seq<StrPtr>, grp: nat, i: nat, a: nat, b: nat)
    requires Sorted(s, ContentOrder(data)) && IsGroup(data, s, grp, i) && grp <= a < i <= b < |s|
    ensures !SameText(data, s, a, b)
  {
    hide StrLeq, Text;
    var leq := ContentOrder(data);
    assert SameText(data, s, grp, a) && !SameText(data, s, grp, i);
    assert leq(s[grp], s[i]) && (i < b ==> leq(s[i], s[b]));
    StrLeqBetween(Text(data, s[grp].off), Text(data, s[i].off), Text(data, s[b].off));
  }

  /** A string between two others is equal to both if they are equal. */
  lemma StrLeqBetween(a: string, b: string, c: string)
    ensures StrLeq(a, b) && a != b && (StrLeq(b, c) || b == c) ==> a != c
  {
    StrLeqTotal(a, b);
  }

  ghost predicate GroupUsed(s: seq<StrPtr>, grp: nat, i: nat)
    requires i <= |s|
  {
    exists j :: grp <= j < i && s[j].used
  }

  /** A group nobody refers to is dropped. */
  lemma SkipGroup(data: seq<char>, s: seq<StrPtr>, t: seq<StrPtr>, emitted: seq<string>, grp: nat, i: nat)
    requires Sorted(s, ContentOrder(data)) && GroupsDone(data, s, t, emitted, grp) && IsGroup(data, s, grp, i)
    requires !GroupUsed(s, grp, i)
    ensures GroupsDone(data, s, t, emitted, i)
  {
    FirstFirstNext(data, s, t, emitted, grp, i);
    forall a, b | 0 <= a < i <= b < |s|
      ensures !SameText(data, s, a, b)
    {
      if a >= grp {
        GroupEnds(data, s, grp, i, a, b);
      }
    }
    forall j | 0 <= j < i && UsedText(data, s, i, Text(data, s[j].off))
      ensures HasPlace(emitted, Text(data, s[j].off), t[j].newOff)
    {
      var a :| 0 <= a < i && s[a].used && Text(data, s[a].off) == Text(data, s[j].off);
      assert a < grp;
      assert SameText(data, s, a, j);
      assert UsedText(data, s, grp, Text(data, s[j].off));
    }
    forall k | 0 <= k < |emitted|
      ensures UsedText(data, s, i, emitted[k])
    {
      assert UsedText(data, s, grp, emitted[k]);
    }
  }

  function SetNewOff(t: seq<StrPtr>, lo: nat, hi: nat, off: nat): (u: seq<StrPtr>)
    requires lo <= hi <= |t|
    ensures |u| == |t|
    ensures forall j :: 0 <= j < |t| ==> u[j] == if lo <= j < hi then t[j].(newOff := off) else t[j]
  {
    seq(|t|, j requires 0 <= j < |t| => if lo <= j < hi then t[j].(newOff := off) else t[j])
  }

  /** What a group emits is new, and each emitted string is used. */
  lemma EmitIsNew(data: seq<char>, s: seq<StrPtr>, t: seq<StrPtr>, emitted: seq<string>, grp: nat, i: nat, k: nat)
    requires GroupsDone(data, s, t, emitted, grp) && IsGroup(data, s, grp, i) && GroupUsed(s, grp, i)
    requires k <= |emitted|
    ensures k < |emitted| ==> emitted[k] != Text(data, s[grp].off)
    ensures UsedText(data, s, i, (emitted + [Text(data, s[grp].off)])[k])
  {
    hide Text, Layout;
    if k < |emitted| {
      assert UsedText(data, s, grp, emitted[k]);
      var a :| 0 <= a < grp && s[a].used && Text(data, s[a].off) == emitted[k];
      assert !SameText(data, s, a, grp);
    } else {
      var j :| grp <= j < i && s[j].used;
      assert SameText(data, s, grp, j);
    }
  }

  lemma EmitPlaces(data: seq<char>, s: seq<StrPtr>, t: seq<StrPtr>, emitted: seq<string>, grp: nat, i: nat, j: nat)
    requires GroupsDone(data, s, t, emitted, grp) && IsGroup(data, s, grp, i)
    requires j < i && UsedText(data, s, i, Text(data, s[j].off))
    ensures HasPlace(emitted + [Text(data, s[grp].off)], Text(data, s[j].off),
                     SetNewOff(t, grp, i, |Layout(emitted)|)[j].newOff)
  {
    hide Text, Layout;
    var e := Text(data, s[grp].off);
    var em := emitted + [e];
    if j < grp {
      var a :| 0 <= a < i && s[a].used && Text(data, s[a].off) == Text(data, s[j].off);
      assert a >= grp ==> !SameText(data, s, j, a);
      assert UsedText(data, s, grp, Text(data, s[j].off));
      HasPlaceKept(emitted, e, Text(data, s[j].off), t[j].newOff);
    } else {
      assert SameText(data, s, grp, j);
      LayoutAppend(emitted, e);
      assert emitted[..|emitted|] == emitted;
      assert em[|emitted|] == e && Place(em, |emitted|) == |Layout(emitted)|;
    }
  }

  /** A group somebody refers to is emitted once. */
  lemma EmitGroup(data: seq<char>, s: seq<StrPtr>, t: seq<StrPtr>, emitted: seq<string>, grp: nat, i: nat)
    requires Sorted(s, ContentOrder(data)) && GroupsDone(data, s, t, emitted, grp) && IsGroup(data, s, grp, i)
    requires GroupUsed(s, grp, i)
    ensures GroupsDone(data, s, SetNewOff(t, grp, i, |Layout(emitted)|), emitted + [Text(data, s[grp].off)], i)
  {
    hide Text, Layout, HasPlace, UsedText, SameText, Sorted, FirstFirst;
    FirstFirstNext(data, s, t, emitted, grp, i);
    forall a, b | 0 <= a < i <= b < |s|
      ensures !SameText(data, s, a, b)
    {
      if a >= grp {
        GroupEnds(data, s, grp, i, a, b);
      }
    }
    forall k | 0 <= k <= |emitted|
      ensures UsedText(data, s, i, (emitted + [Text(data, s[grp].off)])[k])
      ensures k < |emitted| ==> emitted[k] != Text(data, s[grp].off)
    {
      EmitIsNew(data, s, t, emitted, grp, i, k);
    }
    forall j | 0 <= j < i && UsedText(data, s, i, Text(data, s[j].off))
      ensures HasPlace(emitted + [Text(data, s[grp].off)], Text(data, s[j].off),
                       SetNewOff(t, grp, i, |Layout(emitted)|)[j].newOff)
    {
      EmitPlaces(data, s, t, emitted, grp, i, j);
    }
  }

  /** Every used string is found in the new section at its new offset. */
  lemma UsedFound(data: seq<char>, s: seq<StrPtr>, t: seq<StrPtr>, emitted: seq<string>)
    requires GroupsDone(data, s, t, emitted, |s|)
    ensures |t| == |s|
    ensures forall j :: 0 <= j < |s| && s[j].used ==> PlacedAt(Layout(emitted), t[j].newOff, Text(data, s[j].off))
  {
    hide Layout, PlacedAt, Text;
    forall j | 0 <= j < |s| && s[j].used
      ensures PlacedAt(Layout(emitted), t[j].newOff, Text(data, s[j].off))
    {
      assert UsedText(data, s, |s|, Text(data, s[j].off));
      var k :| 0 <= k < |emitted| && emitted[k] == Text(data, s[j].off) && t[j].newOff == Place(emitted, k);
      LayoutAt(emitted, k);
    }
  }

  /** The group loop of btf_dedup_strings over the pointers sorted by content. */
  method EmitGroups(data: seq<char>, s: seq<StrPtr>)
    returns (out: seq<char>, t: seq<StrPtr>, ghost emitted: seq<string>)
    requires |s| > 0 && Sorted(s, ContentOrder(data))
    ensures |t| == |s| && forall j :: 0 <= j < |s| && s[j].used ==> PlacedAt(out, t[j].newOff, Text(data, s[j].off))
    ensures out == Layout(emitted) && GroupsDone(data, s, t, emitted, |s|)
  {
    hide PlacedAt, Text, Layout, HasPlace, UsedText, Sorted, GroupsDone, GroupUsed;
    NothingEmitted(data, s);
    GroupUsedOne(s, 0);
    out, t, emitted := [], s, [];
    var grpIdx, grpUsed, i := 0, s[0].used, 1;
    ghost var fin := 0;
    while i <= |s|
      invariant 1 <= i <= |s| + 1 && |t| == |s|
      invariant fin == if i <= |s| then grpIdx else |s|
      invariant out == Layout(emitted) && GroupsDone(data, s, t, emitted, fin)
      invariant i <= |s| ==> grpIdx < i && (forall j :: grpIdx <= j < i ==> SameText(data, s, grpIdx, j))
      invariant i <= |s| ==> grpUsed == GroupUsed(s, grpIdx, i)
    {
      if i < |s| && Text(data, s[i].off) == Text(data, s[grpIdx].off) {
        GroupUsedNext(s, grpIdx, i);
        grpUsed := grpUsed || s[i].used;
      } else {
        if grpUsed {
          var text := Text(data, s[grpIdx].off);
          EmitGroup(data, s, t, emitted, grpIdx, i);
          LayoutAppend(emitted, text);
          t := SetNewOff(t, grpIdx, i, |out|);
          out := out + text + [NUL];
          emitted := emitted + [text];
        } else {
          SkipGroup(data, s, t, emitted, grpIdx, i);
        }
        fin := i;
        if i < |s| {
          GroupUsedOne(s, i);
          grpIdx, grpUsed := i, s[i].used;
        }
      }
      i := i + 1;
    }
    UsedFound(data, s, t, emitted);
  }

  lemma NothingEmitted(data: seq<char>, s: seq<StrPtr>)
    ensures [] == Layout([]) && GroupsDone(data, s, s, [], 0)
  {
  }

  lemma GroupUsedOne(s: seq<StrPtr>, i: nat)
    requires i < |s|
    ensures GroupUsed(s, i, i + 1) == s[i].used
  {
  }

  lemma GroupUsedNext(s: seq<StrPtr>, grp: nat, i: nat)
    requires i < |s| && grp <= i
    ensures GroupUsed(s, grp, i + 1) == (GroupUsed(s, grp, i) || s[i].used)
  {
  }

  /** The string index of one run of btf_dedup_strings, and the section it overwrites. */
  class StringIndex {
    ghost const data: seq<char>
    var section: seq<char>
    var ptrs: seq<StrPtr>
    ghost var wanted: set<nat>
    ghost var emitted: seq<string>

    /** While references are being marked. */
    ghost predicate Marking()
      reads this
    {
      && Section(data) && section == data && IndexOf(data, ptrs)
      && 0 in wanted
      && (forall i :: 0 <= i < |ptrs| ==> (ptrs[i].used <==> ptrs[i].off in wanted))
      && (forall w :: w in wanted ==> IsStart(data, w))
    }

    /** Once the section has been overwritten. */
    ghost predicate Rewritten()
      reads this
    {
      && Section(data) && section == Layout(emitted) && IndexOf(data, ptrs)
      && Plain(emitted) && Distinct(emitted) && |emitted| > 0 && emitted[0] == []
      && (forall i :: 0 <= i < |ptrs| && ptrs[i].off in wanted ==>
            HasPlace(emitted, Text(data, ptrs[i].off), ptrs[i].newOff))
      && (forall k :: 0 <= k < |emitted| ==> Wanted(emitted[k]))
      && 0 in wanted && (forall w :: w in wanted ==> IsStart(data, w))
    }

    ghost predicate Wanted(s: string)
      reads this
    {
      exists w :: w in wanted && Text(data, w) == s
    }

    /** Build the index; the empty string at offset 0 is always used. */
    constructor (data: seq<char>)
      requires Section(data)
      ensures Marking() && this.data == data && wanted == {0}
    {
      this.data, section := data, data;
      var index := BuildIndex(data);
      ptrs := index[0 := index[0].(used := true)];
      wanted, emitted := {0}, [];
      new;
      OffsKept(data, index, ptrs);
    }

    /** btf_str_mark_as_used. */
    method MarkUsed(off: nat) returns (ok: bool)
      requires Marking()
      modifies this
      ensures Marking()
      ensures ok <==> off == 0 || IsStart(data, off)
      ensures wanted == if ok then old(wanted) + {off} else old(wanted)
    {
      if off == 0 {
        return true;
      }
      var at;
      ok, at := Lookup(ptrs, off);
      if ok {
        ghost var before := ptrs;
        ptrs := ptrs[at := ptrs[at].(used := true)];
        wanted := wanted + {off};
        OffsKept(data, before, ptrs);
      }
    }

    /** Sort by content, emit each used string once, overwrite the section,
        and restore the order of the index. */
    method Rewrite()
      requires Marking()
      modifies this
      ensures Rewritten() && wanted == old(wanted)
    {
      hide Text, Layout, HasPlace, GroupsDone, Sorted, SamePtrs, IndexOf, TotalOrder, UsedText;
      IndexDistinct(data, ptrs);
      ContentOrderTotal(data);
      var byContent := QSort(ptrs, ContentOrder(section));
      SortedNonEmpty(ptrs, byContent);
      var out, placed;
      out, placed, emitted := EmitGroups(section, byContent);
      section := out;
      PlacedDistinct(data, ptrs, byContent, placed, emitted);
      OffsetOrderTotal();
      var byOffset := QSort(placed, OffsetOrder());
      RewrittenIndex(data, ptrs, byContent, placed, byOffset, emitted, wanted);
      ptrs := byOffset;
    }

    /** btf_str_remap_offset. */
    method Remap(off: nat) returns (ok: bool, newOff: nat)
      requires Rewritten()
      ensures ok <==> off == 0 || IsStart(data, off)
      ensures off in wanted && ok ==> PlacedAt(section, newOff, Text(data, off))
      ensures off == 0 ==> newOff == 0
    {
      if off == 0 {
        assert Text(data, 0) == [];
        LayoutAt(emitted, 0);
        assert emitted[..0] == [];
        return true, 0;
      }
      var at;
      ok, at := Lookup(ptrs, off);
      if ok {
        newOff := ptrs[at].newOff;
        if off in wanted {
          var k :| 0 <= k < |emitted| && emitted[k] == Text(data, off) && newOff == Place(emitted, k);
          LayoutAt(emitted, k);
        }
      } else {
        newOff := 0;
      }
    }

    /** Mark the strings of a list of references. */
    method MarkAll(offs: seq<nat>) returns (ok: bool)
      requires Marking()
      modifies this
      ensures Marking()
      ensures ok <==> forall i :: 0 <= i < |offs| ==> offs[i] == 0 || IsStart(data, offs[i])
      ensures old(wanted) <= wanted
      ensures ok ==> forall w :: w in wanted <==> w in old(wanted) || w in offs
    {
      ok := true;
      for i := 0 to |offs|
        invariant Marking() && old(wanted) <= wanted
        invariant forall j :: 0 <= j < i ==> offs[j] == 0 || IsStart(data, offs[j])
        invariant forall w :: w in wanted <==> w in old(wanted) || w in offs[..i]
      {
        assert offs[..i + 1] == offs[..i] + [offs[i]];
        ok := MarkUsed(offs[i]);
        if !ok {
          return;
        }
      }
      assert offs[..|offs|] == offs;
    }

    lemma WantedAreStarts()
      requires Rewritten()
      ensures forall w :: w in wanted ==> IsStart(data, w)
    {
    }

    /** Rewrite a list of references. */
    method RemapAll(offs: seq<nat>) returns (out: seq<nat>)
      requires Rewritten()
      requires forall i :: 0 <= i < |offs| ==> offs[i] in wanted
      ensures |out| == |offs| && forall i :: 0 <= i < |offs| ==> PlacedAt(section, out[i], Text(data, offs[i]))
      ensures forall i :: 0 <= i < |offs| && offs[i] == 0 ==> out[i] == 0
    {
      hide Rewritten, PlacedAt, Text, IsStart, StrAt;
      WantedAreStarts();
      out := [];
      for i := 0 to |offs|
        invariant |out| == i && forall j :: 0 <= j < i ==> PlacedAt(section, out[j], Text(data, offs[j]))
        invariant forall j :: 0 <= j < i && offs[j] == 0 ==> out[j] == 0
      {
        var ok, newOff := Remap(offs[i]);
        out := out + [newOff];
      }
    }
  }

  lemma OffsKept(data: seq<char>, s: seq<StrPtr>, t: seq<StrPtr>)
    requires IndexOf(data, s) && |s| == |t| && forall i :: 0 <= i < |s| ==> t[i].off == s[i].off
    ensures IndexOf(data, t)
  {
    forall off: nat | IsStart(data, off)
      ensures HasOff(t, off)
    {
      assert HasOff(s, off);
      var i :| 0 <= i < |s| && s[i].off == off;
      assert t[i].off == off;
    }
  }

  lemma IndexDistinct(data: seq<char>, s: seq<StrPtr>)
    requires IndexOf(data, s)
    ensures DistinctOffs(s) && |s| > 0
  {
  }

  lemma SortedNonEmpty(s: seq<StrPtr>, t: seq<StrPtr>)
    requires SamePtrs(s, t) && |s| > 0
    ensures |t| > 0
  {
  }

  lemma OffsetOrderTotal()
    ensures TotalOrder(OffsetOrder())
  {
  }

  lemma PlacedDistinct(data: seq<char>, ptrs: seq<StrPtr>, s: seq<StrPtr>, t: seq<StrPtr>, emitted: seq<string>)
    requires SamePtrs(ptrs, s) && GroupsDone(data, s, t, emitted, |s|)
    ensures DistinctOffs(t)
  {
  }

  /** The pointers by offset are those of the original index, now with their new offsets. */
  lemma RewrittenIndex(data: seq<char>, ptrs: seq<StrPtr>, s: seq<StrPtr>, t: seq<StrPtr>, u: seq<StrPtr>,
                       emitted: seq<string>, wanted: set<nat>)
    requires Section(data) && IndexOf(data, ptrs) && 0 in wanted
    requires forall i :: 0 <= i < |ptrs| ==> (ptrs[i].used <==> ptrs[i].off in wanted)
    requires SamePtrs(ptrs, s) && Sorted(s, ContentOrder(data)) && GroupsDone(data, s, t, emitted, |s|)
    requires SamePtrs(t, u) && Sorted(u, OffsetOrder())
    ensures IndexOf(data, u)
    ensures Plain(emitted) && Distinct(emitted) && |emitted| > 0 && emitted[0] == []
    ensures forall i :: 0 <= i < |u| && u[i].off in wanted ==> HasPlace(emitted, Text(data, u[i].off), u[i].newOff)
    ensures forall k :: 0 <= k < |emitted| ==> exists w :: w in wanted && Text(data, w) == emitted[k]
  {
    hide Text, Layout, HasPlace;
    UsedAreWanted(ptrs, s, wanted);
    forall k | 0 <= k < |emitted|
      ensures exists w :: w in wanted && Text(data, w) == emitted[k]
    {
      assert UsedText(data, s, |s|, emitted[k]);
      var a :| 0 <= a < |s| && s[a].used && Text(data, s[a].off) == emitted[k];
      assert s[a].off in wanted;
    }
    forall i | 0 <= i < |u| && u[i].off in wanted
      ensures HasPlace(emitted, Text(data, u[i].off), u[i].newOff)
    {
      assert u[i] in t;
      var j :| 0 <= j < |t| && t[j] == u[i];
      assert s[j].off == u[i].off && s[j].used;
      assert UsedText(data, s, |s|, Text(data, s[j].off));
    }
    RestoredIndex(data, ptrs, s, t, u);
    EmptyFirst(data, ptrs, s, t, emitted, wanted);
  }

  lemma UsedAreWanted(ptrs: seq<StrPtr>, s: seq<StrPtr>, wanted: set<nat>)
    requires SamePtrs(ptrs, s) && forall i :: 0 <= i < |ptrs| ==> (ptrs[i].used <==> ptrs[i].off in wanted)
    ensures forall i :: 0 <= i < |s| ==> (s[i].used <==> s[i].off in wanted)
  {
    forall i | 0 <= i < |s|
      ensures s[i].used <==> s[i].off in wanted
    {
      assert s[i] in ptrs;
    }
  }

  /** The empty string sorts first and is used, so it is emitted first. */
  lemma EmptyFirst(data: seq<char>, ptrs: seq<StrPtr>, s: seq<StrPtr>, t: seq<StrPtr>, emitted: seq<string>,
                   wanted: set<nat>)
    requires Section(data) && IndexOf(data, ptrs) && SamePtrs(ptrs, s) && 0 in wanted
    requires forall i :: 0 <= i < |s| ==> (s[i].used <==> s[i].off in wanted)
    requires Sorted(s, ContentOrder(data)) && GroupsDone(data, s, t, emitted, |s|)
    ensures |emitted| > 0 && emitted[0] == []
  {
    hide HasPlace, Layout;
    assert ptrs[0] in s;
    var z :| 0 <= z < |s| && s[z] == ptrs[0];
    assert Text(data, 0) == [];
    var leq := ContentOrder(data);
    assert z > 0 ==> leq(s[0], s[z]);
    assert Text(data, s[0].off) == [];
    assert UsedText(data, s, |s|, []);
  }

  lemma RestoredIndex(data: seq<char>, ptrs: seq<StrPtr>, s: seq<StrPtr>, t: seq<StrPtr>, u: seq<StrPtr>)
    requires IndexOf(data, ptrs) && SamePtrs(ptrs, s) && SameStrings(s, t) && SamePtrs(t, u) && Sorted(u, OffsetOrder())
    ensures IndexOf(data, u)
  {
    var leq := OffsetOrder();
    forall i, j | 0 <= i < j < |u|
      ensures u[i].off < u[j].off
    {
      assert leq(u[i], u[j]);
    }
    forall i | 0 <= i < |u|
      ensures IsStart(data, u[i].off)
    {
      assert u[i] in t;
      var j :| 0 <= j < |t| && t[j] == u[i];
      assert s[j] in ptrs;
    }
    forall off: nat | IsStart(data, off)
      ensures HasOff(u, off)
    {
      assert HasOff(ptrs, off);
      var i :| 0 <= i < |ptrs| && ptrs[i].off == off;
      assert ptrs[i] in s;
      var j :| 0 <= j < |s| && s[j] == ptrs[i];
      assert t[j] in u;
      var m :| 0 <= m < |u| && u[m] == t[j];
      assert u[m].off == off;
    }
    assert IsStart(data, 0);
    assert HasOff(u, 0);
  }
}
