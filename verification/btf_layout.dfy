/** The type section as bytes (eBPF_app/libbpf/src/btf.c): record sizes, the walk
    that indexes the records, and compaction in place. */
module BtfLayout {
  import opened CanonMap
  import opened DedupResult
  import opened Options
  import opened Words

  const HEADER: nat := 12

  /** The info word lies in the bytes from 4 to 7 of a record. */
  const INFO_END: nat := 8

  /** btf_type_size: by the kind and vlen in the info word. */
  function TypeSize(data: seq<Byte>, at: nat): (size: Option<nat>)
    requires at + INFO_END <= |data|
    ensures size.Some? ==> size.value >= HEADER
  {
    var vlen := data[at + 4] as nat + 256 * data[at + 5] as nat;
    match data[at + 7] as int % 16
    case 1 => Some(HEADER + 4)            // INT
    case 2 => Some(HEADER)                // PTR
    case 3 => Some(HEADER + 12)           // ARRAY
    case 4 => Some(HEADER + vlen * 12)    // STRUCT
    case 5 => Some(HEADER + vlen * 12)    // UNION
    case 6 => Some(HEADER + vlen * 8)     // ENUM
    case 7 => Some(HEADER)                // FWD
    case 8 => Some(HEADER)                // TYPEDEF
    case 9 => Some(HEADER)                // VOLATILE
    case 10 => Some(HEADER)               // CONST
    case 11 => Some(HEADER)               // RESTRICT
    case 12 => Some(HEADER)               // FUNC
    case 13 => Some(HEADER + vlen * 8)    // FUNC_PROTO
    case 14 => Some(HEADER + 4)           // VAR
    case 15 => Some(HEADER + vlen * 12)   // DATASEC
    case _ => None
  }

  /** A record's size is in its header, wherever the record lies. */
  lemma SizeMoves(a: seq<Byte>, i: nat, b: seq<Byte>, j: nat)
    requires i + HEADER <= |a| && j + HEADER <= |b| && a[i..i + HEADER] == b[j..j + HEADER]
    ensures TypeSize(a, i) == TypeSize(b, j)
  {
    var h, g := a[i..i + HEADER], b[j..j + HEADER];
    assert a[i + 4] == h[4] && a[i + 5] == h[5] && a[i + 7] == h[7];
    assert b[j + 4] == g[4] && b[j + 5] == g[5] && b[j + 7] == g[7];
  }

  /** Where record x starts; past the last record, where the section ends. Id 0
      is void, which lies elsewhere. */
  function Start(pos: seq<nat>, end: nat, x: nat): nat
    requires x > 0
  {
    if x < |pos| then pos[x] else end
  }

  /** The index holds consecutive records that fill the section. */
  ghost predicate LaidOut(data: seq<Byte>, pos: seq<nat>, start: nat, end: nat) {
    && |pos| > 0 && end <= |data| && Start(pos, end, 1) == start
    && forall x: nat :: 0 < x < |pos| ==> RecordFits(data, pos, end, x)
  }

  ghost predicate RecordFits(data: seq<Byte>, pos: seq<nat>, end: nat, x: nat)
    requires 0 < x < |pos|
  {
    && pos[x] + HEADER <= Start(pos, end, x + 1) <= |data|
    && TypeSize(data, pos[x]) == Some(Start(pos, end, x + 1) - pos[x])
  }

  lemma {:induction false} StartsAscend(data: seq<Byte>, pos: seq<nat>, start: nat, end: nat, x: nat, y: nat)
    requires LaidOut(data, pos, start, end) && 0 < x <= y <= |pos|
    ensures Start(pos, end, x) <= Start(pos, end, y) <= end
    decreases y - x, |pos| - y
  {
    if x < y {
      assert RecordFits(data, pos, end, x);
      StartsAscend(data, pos, start, end, x + 1, y);
    } else if y < |pos| {
      assert RecordFits(data, pos, end, y);
      StartsAscend(data, pos, start, end, y + 1, y + 1);
    }
  }

  /** The bytes of record x. */
  function Record(data: seq<Byte>, pos: seq<nat>, end: nat, x: nat): (r: seq<Byte>)
    requires x > 0 && Start(pos, end, x) <= Start(pos, end, x + 1) <= |data|
  {
    data[Start(pos, end, x)..Start(pos, end, x + 1)]
  }

  /** The records of the representatives below n, one after the other. */
  ghost function Kept(data: seq<Byte>, pos: seq<nat>, start: nat, end: nat, m: Links, n: nat): (bytes: seq<Byte>)
    requires LaidOut(data, pos, start, end) && |m| == |pos| && n <= |pos|
  {
    if n <= 1 then []
    else
      StartsAscend(data, pos, start, end, n - 1, n);
      Kept(data, pos, start, end, m, n - 1) + (if m[n - 1] == n - 1 then Record(data, pos, end, n - 1) else [])
  }

  /** What is kept never takes more room than what has been read. */
  lemma {:induction false} KeptFits(data: seq<Byte>, pos: seq<nat>, start: nat, end: nat, m: Links, n: nat)
    requires LaidOut(data, pos, start, end) && |m| == |pos| && 0 < n <= |pos|
    ensures start + |Kept(data, pos, start, end, m, n)| <= Start(pos, end, n) <= end <= |data|
  {
    StartsAscend(data, pos, start, end, n, n);
    if n > 1 {
      KeptFits(data, pos, start, end, m, n - 1);
      StartsAscend(data, pos, start, end, n - 1, n);
    }
  }

  /** A representative's record starts where the records kept before it end. */
  lemma {:induction false} KeptAt(data: seq<Byte>, pos: seq<nat>, start: nat, end: nat, m: Links, n: nat, x: nat)
    requires LaidOut(data, pos, start, end) && |m| == |pos| && 0 < x < n <= |pos| && m[x] == x
    ensures Start(pos, end, x) <= Start(pos, end, x + 1) <= |data|
    ensures var r, k := Record(data, pos, end, x), Kept(data, pos, start, end, m, x);
            && |k| + |r| <= |Kept(data, pos, start, end, m, n)|
            && Kept(data, pos, start, end, m, n)[|k|..|k| + |r|] == r
            && Kept(data, pos, start, end, m, x + 1) == k + r
  {
    StartsAscend(data, pos, start, end, x, x + 1);
    var k, r, front := Kept(data, pos, start, end, m, x), Record(data, pos, end, x),
        Kept(data, pos, start, end, m, n - 1);
    KeptStep(data, pos, start, end, m, n);
    KeptStep(data, pos, start, end, m, x + 1);
    hide Kept, LaidOut;
    if x < n - 1 {
      KeptAt(data, pos, start, end, m, n - 1, x);
      assert Kept(data, pos, start, end, m, n)[|k|..|k| + |r|] == front[|k|..|k| + |r|];
    } else {
      assert (k + r)[|k|..|k| + |r|] == r;
    }
  }

  lemma KeptStep(data: seq<Byte>, pos: seq<nat>, start: nat, end: nat, m: Links, n: nat)
    requires LaidOut(data, pos, start, end) && |m| == |pos| && 1 < n <= |pos|
    ensures Start(pos, end, n - 1) <= Start(pos, end, n) <= |data|
    ensures Kept(data, pos, start, end, m, n) ==
              Kept(data, pos, start, end, m, n - 1) + if m[n - 1] == n - 1 then Record(data, pos, end, n - 1) else []
  {
    StartsAscend(data, pos, start, end, n - 1, n);
  }

  /** Bytes overwritten from `start` on. */
  function Overwrite(was: seq<Byte>, start: nat, kept: seq<Byte>): (data: seq<Byte>)
    requires start + |kept| <= |was|
    ensures |data| == |was|
  {
    was[..start] + kept + was[start + |kept|..]
  }

  /** The bytes after the records below n: what is kept lies in front, everything
      behind it is untouched, and what has not been read is behind it. */
  ghost predicate Compacting(was: seq<Byte>, pos: seq<nat>, start: nat, end: nat, m: Links, data: seq<Byte>, n: nat) {
    && LaidOut(was, pos, start, end) && |m| == |pos| && 0 < n <= |pos|
    && var kept := Kept(was, pos, start, end, m, n);
       start + |kept| <= Start(pos, end, n) <= |was| && data == Overwrite(was, start, kept)
  }

  /** All that is kept lies at the start of the section. */
  ghost predicate IsCompacted(was: seq<Byte>, pos: seq<nat>, start: nat, end: nat, m: Links, data: seq<Byte>) {
    && LaidOut(was, pos, start, end) && |m| == |pos| && |data| == |was|
    && var kept := Kept(was, pos, start, end, m, |pos|);
       start + |kept| <= end && data[..start + |kept|] == was[..start] + kept
  }

  /** The index after the records below n: new starts in front, old ones from n on. */
  ghost predicate Indexed(was: seq<Byte>, pos: seq<nat>, start: nat, end: nat, m: Links, types: seq<nat>, n: nat) {
    && LaidOut(was, pos, start, end) && |m| == |pos| == |types| && 0 < n <= |pos|
    && Placed(was, pos, start, end, m, types, Survivors(m, n))
    && (forall x :: n <= x < |pos| ==> types[x] == pos[x])
  }

  /** The k-th of these ids has been given its new place. */
  ghost predicate Placed(was: seq<Byte>, pos: seq<nat>, start: nat, end: nat, m: Links, types: seq<nat>, ids: seq<nat>)
    requires LaidOut(was, pos, start, end) && |m| == |pos|
  {
    forall k ::
      0 < k < |ids| ==> k < |types| && ids[k] <= |pos| && types[k] == start + |Kept(was, pos, start, end, m, ids[k])|
  }

  lemma OneMorePlaced(was: seq<Byte>, pos: seq<nat>, start: nat, end: nat, m: Links, types: seq<nat>, ids: seq<nat>,
                      n: nat)
    requires LaidOut(was, pos, start, end) && |m| == |pos| && n <= |pos| && |ids| < |types|
    requires Placed(was, pos, start, end, m, types, ids)
    ensures Placed(was, pos, start, end, m, types[|ids| := start + |Kept(was, pos, start, end, m, n)|], ids + [n])
  {
    hide LaidOut, Kept;
  }

  lemma CompactingBegins(was: seq<Byte>, pos: seq<nat>, start: nat, end: nat, m: Links)
    requires LaidOut(was, pos, start, end) && |m| == |pos| && m[0] == 0
    ensures Compacting(was, pos, start, end, m, was, 1) && Indexed(was, pos, start, end, m, pos, 1)
    ensures |Kept(was, pos, start, end, m, 1)| == 0 && |Survivors(m, 1)| == 1
  {
    KeptFits(was, pos, start, end, m, 1);
    assert was == Overwrite(was, start, []);
    assert Survivors(m, 1) == [0];
  }

  /** The size of the next record is read from bytes that nothing has overwritten. */
  lemma NextRecordIntact(was: seq<Byte>, pos: seq<nat>, start: nat, end: nat, m: Links, data: seq<Byte>, n: nat)
    requires Compacting(was, pos, start, end, m, data, n) && n < |pos|
    ensures pos[n] + HEADER <= Start(pos, end, n + 1) <= end <= |data|
    ensures TypeSize(data, pos[n]) == Some(Start(pos, end, n + 1) - pos[n])
    ensures data[pos[n]..Start(pos, end, n + 1)] == Record(was, pos, end, n)
  {
    assert RecordFits(was, pos, end, n);
    StartsAscend(was, pos, start, end, n + 1, n + 1);
    var at, next := pos[n], Start(pos, end, n + 1);
    Behind(was, start, Kept(was, pos, start, end, m, n), at, next);
    Behind(was, start, Kept(was, pos, start, end, m, n), at, at + HEADER);
    SizeMoves(data, at, was, at);
  }

  /** What lies behind the overwritten bytes is as before. */
  lemma Behind(was: seq<Byte>, start: nat, kept: seq<Byte>, at: nat, next: nat)
    requires start + |kept| <= at <= next <= |was|
    ensures Overwrite(was, start, kept)[at..next] == was[at..next]
  {
  }

  /** Moving record n down, or leaving it out. */
  lemma CompactingStep(was: seq<Byte>, pos: seq<nat>, start: nat, end: nat, m: Links, data: seq<Byte>, data': seq<Byte>,
                       n: nat)
    requires Compacting(was, pos, start, end, m, data, n) && n < |pos|
    requires var p, at, next := start + |Kept(was, pos, start, end, m, n)|, pos[n], Start(pos, end, n + 1);
             at <= next <= |data| ==>
               data' == if m[n] == n then data[..p] + data[at..next] + data[p + (next - at)..] else data
    ensures Compacting(was, pos, start, end, m, data', n + 1)
  {
    NextRecordIntact(was, pos, start, end, m, data, n);
    KeptFits(was, pos, start, end, m, n + 1);
    var kept, at, next := Kept(was, pos, start, end, m, n), pos[n], Start(pos, end, n + 1);
    if m[n] == n {
      MoveDown(was, data, data', start, kept, at, next);
    } else {
      assert kept + [] == kept;
    }
  }

  /** Moving bytes down to the end of what is kept keeps them too. */
  lemma MoveDown(was: seq<Byte>, data: seq<Byte>, data': seq<Byte>, start: nat, kept: seq<Byte>, at: nat, next: nat)
    requires start + |kept| <= at <= next <= |was| && data == Overwrite(was, start, kept)
    requires var p := start + |kept|; data' == data[..p] + data[at..next] + data[p + (next - at)..]
    ensures data' == Overwrite(was, start, kept + was[at..next])
  {
    var p := start + |kept|;
    Behind(was, start, kept, at, next);
    assert data[p + (next - at)..] == was[p + (next - at)..];
    assert data[..p] == was[..start] + kept;
  }

  lemma IndexedStep(was: seq<Byte>, pos: seq<nat>, start: nat, end: nat, m: Links, types: seq<nat>, n: nat)
    requires Indexed(was, pos, start, end, m, types, n) && n < |pos| && m[0] == 0
    ensures 0 < |Survivors(m, n)| <= n && types[n] == pos[n]
    ensures m[n] != n ==> Indexed(was, pos, start, end, m, types, n + 1)
    ensures m[n] == n ==>
              Indexed(was, pos, start, end, m, types[|Survivors(m, n)| := start + |Kept(was, pos, start, end, m, n)|],
                      n + 1)
  {
    FirstSurvivor(m, n);
    SurvivorsAre(m, n);
    SurvivorsStep(m, n);
    hide Survivors, LaidOut, Kept, Placed;
    assert Survivors(m, n) + [] == Survivors(m, n);
    OneMorePlaced(was, pos, start, end, m, types, Survivors(m, n), n);
  }

  lemma SurvivorsStep(m: Links, n: nat)
    requires n < |m|
    ensures Survivors(m, n + 1) == Survivors(m, n) + (if m[n] == n then [n] else [])
  {
  }

  /** Among the kept records, those of representative x lie between its own
      start and that of the next one. */
  lemma CompactedPlaces(was: seq<Byte>, pos: seq<nat>, start: nat, end: nat, m: Links, types: seq<nat>, k: nat)
    requires Indexed(was, pos, start, end, m, types, |pos|) && m[0] == 0 && 0 < k < |Survivors(m, |pos|)| <= |types|
    ensures var n, x := |pos|, Survivors(m, |pos|)[k];
            var s, e := types[..|Survivors(m, n)|], start + |Kept(was, pos, start, end, m, n)|;
            && 0 < x < n && Start(pos, end, x) <= Start(pos, end, x + 1) <= |was|
            && var a, r, kept := |Kept(was, pos, start, end, m, x)|, Record(was, pos, end, x),
                   Kept(was, pos, start, end, m, n);
               && a + |r| <= |kept| && kept[a..a + |r|] == r
               && s[k] == start + a && Start(s, e, k + 1) == start + a + |r|
  {
    var n := |pos|;
    NoneBetween(m, n, k);
    var x, y := Survivors(m, n)[k], NextSurvivor(m, n, k);
    KeptAt(was, pos, start, end, m, n, x);
    KeptSkips(was, pos, start, end, m, x + 1, y);
  }

  /** The compacted section is laid out again, and record for record what was kept. */
  lemma CompactedLayout(was: seq<Byte>, pos: seq<nat>, start: nat, end: nat, m: Links, data: seq<Byte>, types: seq<nat>,
                        k: nat)
    requires Indexed(was, pos, start, end, m, types, |pos|) && m[0] == 0 && 0 < k < |Survivors(m, |pos|)| <= |types|
    requires IsCompacted(was, pos, start, end, m, data)
    ensures var x, s, e := Survivors(m, |pos|)[k], types[..|Survivors(m, |pos|)|],
                start + |Kept(was, pos, start, end, m, |pos|)|;
            && 0 < x < |pos| && RecordFits(data, s, e, k)
            && Start(pos, end, x) <= Start(pos, end, x + 1) <= |was|
            && Record(data, s, e, k) == Record(was, pos, end, x)
  {
    CompactedPlaces(was, pos, start, end, m, types, k);
    var x := Survivors(m, |pos|)[k];
    assert RecordFits(was, pos, end, x);
    hide LaidOut, Kept, Survivors, Indexed, TypeSize, Start;
    var a, kept := |Kept(was, pos, start, end, m, x)|, Kept(was, pos, start, end, m, |pos|);
    SameRecord(was, data, start, kept, a, pos[x], Start(pos, end, x + 1) - pos[x]);
  }

  lemma SameRecord(was: seq<Byte>, data: seq<Byte>, start: nat, kept: seq<Byte>, a: nat, at: nat, len: nat)
    requires start + |kept| <= |data| == |was| && data[..start + |kept|] == was[..start] + kept
    requires HEADER <= len && a + len <= |kept| && at + len <= |was| && kept[a..a + len] == was[at..at + len]
    ensures data[start + a..start + a + len] == was[at..at + len]
    ensures TypeSize(data, start + a) == TypeSize(was, at)
  {
    assert data[start + a..start + a + len] == data[..start + |kept|][start + a..start + a + len];
    assert (was[..start] + kept)[start + a..start + a + len] == kept[a..a + len];
    assert data[start + a..start + a + HEADER] == data[start + a..start + a + len][..HEADER];
    assert was[at..at + HEADER] == was[at..at + len][..HEADER];
    SizeMoves(data, start + a, was, at);
  }

  lemma {:induction false} FirstSurvivor(m: Links, n: nat)
    requires 0 < n <= |m| && m[0] == 0
    ensures 0 < |Survivors(m, n)| && Survivors(m, n)[0] == 0
  {
    if n > 1 {
      FirstSurvivor(m, n - 1);
    }
  }

  lemma {:induction false} KeptSkips(was: seq<Byte>, pos: seq<nat>, start: nat, end: nat, m: Links, x: nat, y: nat)
    requires LaidOut(was, pos, start, end) && |m| == |pos| && 0 < x <= y <= |pos|
    requires forall z :: x <= z < y ==> m[z] != z
    ensures Kept(was, pos, start, end, m, x) == Kept(was, pos, start, end, m, y)
    decreases y
  {
    if x < y {
      KeptSkips(was, pos, start, end, m, x, y - 1);
    }
  }

  /** The id after survivor k, or the end of the ids. */
  function NextSurvivor(m: Links, n: nat, k: nat): nat
    requires n <= |m| && k < |Survivors(m, n)|
  {
    if k + 1 < |Survivors(m, n)| then Survivors(m, n)[k + 1] else n
  }

  lemma NoneBetween(m: Links, n: nat, k: nat)
    requires 0 < n <= |m| && m[0] == 0 && k < |Survivors(m, n)|
    ensures var x := Survivors(m, n)[k];
            && (k > 0 <==> x > 0) && x < NextSurvivor(m, n, k) <= n && m[x] == x
            && forall z :: x < z < NextSurvivor(m, n, k) ==> m[z] != z
  {
    FirstSurvivor(m, n);
    SurvivorsAre(m, n);
    hide Survivors;
    var ids := Survivors(m, n);
    forall j | 0 <= j < |ids|
      ensures ids[j] <= ids[k] || ids[j] >= NextSurvivor(m, n, k)
    {
      assert j < k ==> ids[j] < ids[k];
      assert k + 1 < j ==> ids[k + 1] < ids[j];
    }
  }

  /** The first kept record starts where the section does. */
  lemma FirstPlace(was: seq<Byte>, pos: seq<nat>, start: nat, end: nat, m: Links, types: seq<nat>)
    requires Indexed(was, pos, start, end, m, types, |pos|) && m[0] == 0 && |Survivors(m, |pos|)| <= |types|
    ensures 0 < |Survivors(m, |pos|)|
    ensures Start(types[..|Survivors(m, |pos|)|], start + |Kept(was, pos, start, end, m, |pos|)|, 1) == start
  {
    FirstSurvivor(m, |pos|);
    NoneBetween(m, |pos|, 0);
    KeptSkips(was, pos, start, end, m, 1, NextSurvivor(m, |pos|, 0));
  }

  /** The whole section is laid out again. */
  lemma CompactedIsLaidOut(was: seq<Byte>, pos: seq<nat>, start: nat, end: nat, m: Links, data: seq<Byte>,
                           types: seq<nat>)
    requires Indexed(was, pos, start, end, m, types, |pos|) && m[0] == 0 && |Survivors(m, |pos|)| <= |types|
    requires IsCompacted(was, pos, start, end, m, data)
    ensures var s, e := types[..|Survivors(m, |pos|)|], start + |Kept(was, pos, start, end, m, |pos|)|;
            && LaidOut(data, s, start, e)
            && forall k: nat :: 0 < k < |s| ==> SameBytes(was, pos, end, Survivors(m, |pos|)[k], data, s, e, k)
  {
    hide TypeSize, Kept, Survivors;
    FirstPlace(was, pos, start, end, m, types);
    var s, e := types[..|Survivors(m, |pos|)|], start + |Kept(was, pos, start, end, m, |pos|)|;
    forall k: nat | 0 < k < |s|
      ensures RecordFits(data, s, e, k) && SameBytes(was, pos, end, Survivors(m, |pos|)[k], data, s, e, k)
    {
      CompactedLayout(was, pos, start, end, m, data, types, k);
    }
  }

  ghost predicate SameBytes(was: seq<Byte>, pos: seq<nat>, end: nat, x: nat, data: seq<Byte>, types: seq<nat>, e: nat,
                            k: nat) {
    && x > 0 && k > 0
    && Start(pos, end, x) <= Start(pos, end, x + 1) <= |was| && Start(types, e, k) <= Start(types, e, k + 1) <= |data|
    && Record(data, types, e, k) == Record(was, pos, end, x)
  }

  /** Moving the strings behind the records, from wherever they are. */
  lemma StringsMoved(was: seq<Byte>, pos: seq<nat>, start: nat, end: nat, m: Links, data: seq<Byte>, data': seq<Byte>,
                     strs: nat, len: nat)
    requires Compacting(was, pos, start, end, m, data, |pos|) && strs + len <= |was|
    requires var p := start + |Kept(was, pos, start, end, m, |pos|)|;
             p + len <= |data| && data' == data[..p] + data[strs..strs + len] + data[p + len..]
    ensures IsCompacted(was, pos, start, end, m, data')
    ensures var p := start + |Kept(was, pos, start, end, m, |pos|)|; data'[p..p + len] == data[strs..strs + len]
  {
    var p := start + |Kept(was, pos, start, end, m, |pos|)|;
    KeptFits(was, pos, start, end, m, |pos|);
    assert data'[..p] == data[..p];
  }

  lemma NumberingBegins(canon: Links, hypot: Links)
    requires |canon| == |hypot| > 0 && canon[0] == 0 && hypot[0] == 0
    requires forall x :: 0 < x < |hypot| ==> hypot[x] == UNPROCESSED
    ensures Numbered(canon, hypot, 1)
  {
    assert Survivors(canon, 1) == [0];
  }

  /** Everything the loop of compaction keeps up to record n. */
  ghost predicate Progress(was: seq<Byte>, pos: seq<nat>, start: nat, end: nat, m: Links, data: seq<Byte>,
                           types: seq<nat>, hypot: Links, n: nat, next: nat, p: nat) {
    && Compacting(was, pos, start, end, m, data, n) && Indexed(was, pos, start, end, m, types, n) && m[0] == 0
    && |hypot| == |m| && Numbered(m, hypot, n)
    && next == |Survivors(m, n)| && p == start + |Kept(was, pos, start, end, m, n)|
  }

  lemma ProgressBegins(was: seq<Byte>, pos: seq<nat>, start: nat, end: nat, m: Links, hypot: Links)
    requires LaidOut(was, pos, start, end) && |m| == |pos| == |hypot| && m[0] == 0 && hypot[0] == 0
    requires forall x :: 0 < x < |hypot| ==> hypot[x] == UNPROCESSED
    ensures Progress(was, pos, start, end, m, was, pos, hypot, 1, 1, start)
  {
    CompactingBegins(was, pos, start, end, m);
    NumberingBegins(m, hypot);
  }

  lemma KeptGrows(was: seq<Byte>, pos: seq<nat>, start: nat, end: nat, m: Links, n: nat)
    requires LaidOut(was, pos, start, end) && |m| == |pos| && 0 < n < |pos|
    ensures |Survivors(m, n + 1)| == |Survivors(m, n)| + if m[n] == n then 1 else 0
    ensures start + |Kept(was, pos, start, end, m, n + 1)| ==
              start + |Kept(was, pos, start, end, m, n)| + if m[n] == n then Start(pos, end, n + 1) - pos[n] else 0
  {
    assert RecordFits(was, pos, end, n);
  }

  /** The loop is done: what is kept ends before the strings. */
  lemma ProgressDone(was: seq<Byte>, pos: seq<nat>, start: nat, end: nat, m: Links, data: seq<Byte>,
                     types: seq<nat>, hypot: Links, next: nat, p: nat)
    requires Progress(was, pos, start, end, m, data, types, hypot, |pos|, next, p)
    ensures Compacting(was, pos, start, end, m, data, |pos|) && Indexed(was, pos, start, end, m, types, |pos|)
    ensures LaidOut(was, pos, start, end) && |pos| == |m| == |types| && Numbered(m, hypot, |m|)
    ensures next == |Survivors(m, |m|)| <= |types|
    ensures start <= p == start + |Kept(was, pos, start, end, m, |pos|)| <= end <= |data| == |was|
    ensures data == Overwrite(was, start, Kept(was, pos, start, end, m, |pos|))
  {
    KeptFits(was, pos, start, end, m, |pos|);
  }

  /** What one round of the loop finds: the record is where it was, and its new
      place is not behind it. */
  lemma ProgressFinds(was: seq<Byte>, pos: seq<nat>, start: nat, end: nat, m: Links, data: seq<Byte>,
                      types: seq<nat>, hypot: Links, n: nat, next: nat, p: nat)
    requires Progress(was, pos, start, end, m, data, types, hypot, n, next, p) && n < |pos|
    ensures |data| == |was| && |types| == |hypot| == |pos| && 0 < next <= n && types[n] + HEADER <= |data|
    ensures p <= types[n]
    ensures TypeSize(data, types[n]).Some? && types[n] + TypeSize(data, types[n]).value <= |data|
  {
    NextRecordIntact(was, pos, start, end, m, data, n);
    IndexedStep(was, pos, start, end, m, types, n);
  }

  /** The record's own bytes move to the end of what is kept. */
  lemma KeepsBytes(was: seq<Byte>, pos: seq<nat>, start: nat, end: nat, m: Links, data: seq<Byte>, data': seq<Byte>,
                   n: nat, at: nat, size: nat, p: nat)
    requires Compacting(was, pos, start, end, m, data, n) && n < |pos| && m[n] == n
    requires at == pos[n] && at + HEADER <= |data| && TypeSize(data, at) == Some(size)
    requires p == start + |Kept(was, pos, start, end, m, n)|
    requires p <= at && at + size <= |data| && data' == data[..p] + data[at..at + size] + data[p + size..]
    ensures Compacting(was, pos, start, end, m, data', n + 1) && |Survivors(m, n + 1)| == |Survivors(m, n)| + 1
    ensures p + size == start + |Kept(was, pos, start, end, m, n + 1)|
  {
    assert LaidOut(was, pos, start, end) && |m| == |pos|;
    NextRecordIntact(was, pos, start, end, m, data, n);
    KeptGrows(was, pos, start, end, m, n);
    hide LaidOut, Kept, Survivors, Compacting, TypeSize, Record, Overwrite;
    var next := Start(pos, end, n + 1);
    assert at + size == next && size == next - at;
    CompactingStep(was, pos, start, end, m, data, data', n);
  }

  lemma ProgressKeeps(was: seq<Byte>, pos: seq<nat>, start: nat, end: nat, m: Links, data: seq<Byte>,
                      types: seq<nat>, hypot: Links, n: nat, next: nat, p: nat, data': seq<Byte>, size: nat)
    requires Progress(was, pos, start, end, m, data, types, hypot, n, next, p) && n < |pos| && m[n] == n
    requires next < |types| && n < |hypot| && n < |types| && types[n] + HEADER <= |data|
    requires TypeSize(data, types[n]) == Some(size)
    requires p <= types[n] && types[n] + size <= |data|
    requires data' == data[..p] + data[types[n]..types[n] + size] + data[p + size..]
    ensures Progress(was, pos, start, end, m, data', types[next := p], hypot[n := next], n + 1, next + 1, p + size)
  {
    hide LaidOut, Kept, Numbered, Survivors, Compacting, TypeSize, Placed, Start;
    assert next == |Survivors(m, n)| && p == start + |Kept(was, pos, start, end, m, n)| && types[n] == pos[n];
    hide Indexed;
    IndexedStep(was, pos, start, end, m, types, n);
    NumberedStep(m, hypot, n);
    KeepsBytes(was, pos, start, end, m, data, data', n, types[n], size, p);
  }

  lemma ProgressSkips(was: seq<Byte>, pos: seq<nat>, start: nat, end: nat, m: Links, data: seq<Byte>,
                      types: seq<nat>, hypot: Links, n: nat, next: nat, p: nat)
    requires Progress(was, pos, start, end, m, data, types, hypot, n, next, p) && n < |pos| && m[n] != n
    ensures Progress(was, pos, start, end, m, data, types, hypot, n + 1, next, p)
  {
    NextRecordIntact(was, pos, start, end, m, data, n);
    IndexedStep(was, pos, start, end, m, types, n);
    CompactingStep(was, pos, start, end, m, data, data, n);
    NumberedStep(m, hypot, n);
  }

  /** The compacted image: the kept records, then the bytes that the string section
      had after the records had been moved; the index is that of the kept records,
      each with the bytes it had. */
  ghost predicate CompactImage(was: seq<Byte>, pos: seq<nat>, start: nat, end: nat, m: Links, strs: nat, strLen: nat,
                               data: seq<Byte>, types: seq<nat>, strOff: nat) {
    && LaidOut(was, pos, start, end) && |m| == |pos| && strs + strLen <= |was| && |data| == |was|
    && var kept := Kept(was, pos, start, end, m, |m|);
       && strOff == start + |kept| && strOff + strLen <= |data|
       && data[..strOff] == was[..start] + kept
       && data[strOff..strOff + strLen] == Overwrite(was, start, kept)[strs..strs + strLen]
       && |types| == |Survivors(m, |m|)| && LaidOut(data, types, start, strOff)
       && forall k: nat :: 0 < k < |types| ==> SameBytes(was, pos, end, Survivors(m, |m|)[k], data, types, strOff, k)
  }

  /** The strings survive wherever the kept records end before them, as they do if
      the last record ended there to begin with. */
  lemma StringsKept(was: seq<Byte>, pos: seq<nat>, start: nat, end: nat, m: Links, strs: nat, strLen: nat,
                    data: seq<Byte>, types: seq<nat>, strOff: nat)
    requires CompactImage(was, pos, start, end, m, strs, strLen, data, types, strOff)
    ensures strs == end && |pos| > 0 ==> strOff <= strs
    ensures strOff <= strs ==>
              && strOff + strLen <= |data| && strs + strLen <= |was|
              && data[strOff..strOff + strLen] == was[strs..strs + strLen]
  {
    KeptFits(was, pos, start, end, m, |pos|);
    if strOff <= strs {
      Behind(was, start, Kept(was, pos, start, end, m, |pos|), strs, strs + strLen);
    }
  }

  /** The section and the strings behind it, after both have been moved. */
  lemma Finished(was: seq<Byte>, pos: seq<nat>, start: nat, end: nat, m: Links, data: seq<Byte>, data': seq<Byte>,
                 types: seq<nat>, hypot: Links, next: nat, p: nat, strs: nat, len: nat)
    requires Progress(was, pos, start, end, m, data, types, hypot, |pos|, next, p) && strs + len <= |was|
    requires p + len <= |data| == |was| && data' == data[..p] + data[strs..strs + len] + data[p + len..]
    ensures |m| == |pos| && Numbered(m, hypot, |m|) && start <= p && p + len <= |data'| && next <= |types|
    ensures CompactImage(was, pos, start, end, m, strs, len, data', types[..next], p)
  {
    hide Compacting, Indexed, LaidOut, Kept, Survivors, SameBytes, Overwrite;
    ProgressDone(was, pos, start, end, m, data, types, hypot, next, p);
    StringsMoved(was, pos, start, end, m, data, data', strs, len);
    CompactedIsLaidOut(was, pos, start, end, m, data', types);
  }

  /** memmove: as if through a copy. */
  method Memmove(data: array<Byte>, dst: nat, src: nat, len: nat)
    requires dst + len <= data.Length && src + len <= data.Length
    modifies data
    ensures data[..] == old(data[..dst]) + old(data[src..src + len]) + old(data[dst + len..])
  {
    var copy := data[src..src + len];
    forall i | 0 <= i < len {
      data[dst + i] := copy[i];
    }
    assert forall i :: 0 <= i < len ==> data[dst + i] == copy[i];
  }

  /** A walk over the section: the records, and where the last one ends; unless it
      comes to an unknown kind, or to a record whose info word is not in memory. */
  datatype Walked = Indexed(pos: seq<nat>, stop: nat) | BadKind | Overrun

  ghost function Walk(data: seq<Byte>, at: nat, end: nat): (w: Walked)
    ensures w.Indexed? ==> at <= w.stop && end <= w.stop
    decreases end - at
  {
    if at >= end then Walked.Indexed([], at)
    else if at + INFO_END > |data| then Overrun
    else match TypeSize(data, at)
         case None => BadKind
         case Some(size) => InFront([at], Walk(data, at + size, end))
  }

  function InFront(pos: seq<nat>, w: Walked): Walked {
    match w
    case Indexed(rest, stop) => Walked.Indexed(pos + rest, stop)
    case _ => w
  }

  lemma InFrontTwice(a: seq<nat>, b: seq<nat>, w: Walked)
    ensures InFront(a, InFront(b, w)) == InFront(a + b, w)
  {
    if w.Indexed? {
      assert a + (b + w.pos) == a + b + w.pos;
    }
  }

  /** A section that is laid out is walked record by record, and the walk stops at
      its end. */
  lemma {:induction false} WalkFindsLayout(data: seq<Byte>, pos: seq<nat>, start: nat, end: nat, x: nat)
    requires LaidOut(data, pos, start, end) && 0 < x <= |pos|
    ensures Walk(data, Start(pos, end, x), end) == Walked.Indexed(pos[x..], end)
    decreases |pos| - x
  {
    if x < |pos| {
      StartsAscend(data, pos, start, end, x + 1, x + 1);
      assert RecordFits(data, pos, end, x);
      WalkFindsLayout(data, pos, start, end, x + 1);
      assert [pos[x]] + pos[x + 1..] == pos[x..];
    } else {
      assert pos[x..] == [];
    }
  }

  /** What a walk finds is laid out, up to where the last record ends, if that is
      in memory. */
  lemma {:induction false} LayoutOfWalk(data: seq<Byte>, at: nat, end: nat)
    requires Walk(data, at, end).Indexed? && Walk(data, at, end).stop <= |data|
    ensures var w := Walk(data, at, end); LaidOut(data, [0] + w.pos, at, w.stop)
    decreases end - at
  {
    var w := Walk(data, at, end);
    if at < end {
      var rest := Walk(data, at + TypeSize(data, at).value, end);
      LayoutOfWalk(data, at + TypeSize(data, at).value, end);
      var pos := [0] + w.pos;
      forall x: nat | 0 < x < |pos|
        ensures RecordFits(data, pos, w.stop, x)
      {
        OneFurther(pos, at, rest.pos, w.stop, x);
        assert x > 1 ==> RecordFits(data, [0] + rest.pos, w.stop, x - 1);
        assert x == 1 ==> Start([0] + rest.pos, w.stop, 1) == at + TypeSize(data, at).value;
      }
    }
  }

  lemma OneFurther(pos: seq<nat>, at: nat, rest: seq<nat>, end: nat, x: nat)
    requires pos == [0] + ([at] + rest) && 0 < x < |pos|
    ensures Start(pos, end, x + 1) == Start([0] + rest, end, x)
    ensures pos[x] == if x == 1 then at else ([0] + rest)[x - 1]
  {
  }

  /** A walk indexes a section that is laid out up to its end exactly if the last
      record ends there. */
  lemma WalkIsLayout(data: seq<Byte>, start: nat, end: nat)
    requires Walk(data, start, end).Indexed? && end <= |data|
    ensures var w := Walk(data, start, end); w.stop == end <==> LaidOut(data, [0] + w.pos, start, end)
  {
    var w := Walk(data, start, end);
    if w.stop == end {
      LayoutOfWalk(data, start, end);
    }
    if LaidOut(data, [0] + w.pos, start, end) {
      WalkFindsLayout(data, [0] + w.pos, start, end, 1);
    }
  }

  /** Parsing the compacted section gives its index again. */
  lemma CompactImageParses(was: seq<Byte>, pos: seq<nat>, start: nat, end: nat, m: Links, strs: nat, strLen: nat,
                           data: seq<Byte>, types: seq<nat>, strOff: nat)
    requires CompactImage(was, pos, start, end, m, strs, strLen, data, types, strOff)
    ensures |types| > 0 && Walk(data, start, strOff) == Walked.Indexed(types[1..], strOff)
  {
    WalkFindsLayout(data, types, start, strOff, 1);
  }

  /** The parts of struct btf that compaction changes; offsets count from nohdr_data. */
  class Image {
    const data: array<Byte>
    var types: seq<nat>       // types[x] is where record x starts; types[0] stands for void
    var typeOff: nat
    var typeLen: nat
    var strOff: nat
    var strLen: nat
    var dataSize: nat

    constructor (data: array<Byte>, typeOff: nat, strOff: nat, strLen: nat)
      ensures this.data == data && types == [0]
      ensures this.typeOff == typeOff && this.strOff == strOff && this.strLen == strLen
    {
      this.data, this.typeOff, this.strOff, this.strLen := data, typeOff, strOff, strLen;
      types, typeLen, dataSize := [0], 0, data.Length;
    }

    /** btf_parse_type_sec: index the records up to the string section, and tell
        where the last one ends. The walk reads the records' info words without
        looking at the end of the memory. */
    method ParseTypeSec() returns (w: Walked)
      modifies this`types
      ensures w.Indexed? ==> types == [0] + w.pos
      ensures w == Walk(data[..], typeOff, strOff)
    {
      types := [0];
      var pos: seq<nat>, next: nat := [], typeOff;
      while next < strOff
        invariant types == [0] + pos
        invariant Walk(data[..], typeOff, strOff) == InFront(pos, Walk(data[..], next, strOff))
        decreases strOff - next
      {
        if next + INFO_END > data.Length {
          return Overrun;
        }
        var size := TypeSize(data[..], next);
        if size == None {
          return BadKind;
        }
        InFrontTwice(pos, [next], Walk(data[..], next + size.value, strOff));
        types := types + [next];
        pos := pos + [next];
        next := next + size.value;
      }
      assert pos + [] == pos;
      w := Walked.Indexed(pos, next);
    }

    /** Move one record; no size means no move. */
    method MoveType(at: nat, p: nat) returns (size: Option<nat>)
      requires at + HEADER <= data.Length && p <= at
      requires TypeSize(data[..], at).Some? ==> at + TypeSize(data[..], at).value <= data.Length
      modifies data
      ensures size == TypeSize(old(data[..]), at)
      ensures size.Some? ==>
                data[..] == old(data[..])[..p] + old(data[..])[at..at + size.value] + old(data[..])[p + size.value..]
    {
      size := TypeSize(data[..], at);
      if size.Some? {
        Memmove(data, p, at, size.value);
      }
    }

    /** A representative's record moves down behind the ones kept before it. */
    method KeepType(i: nat, nextTypeId: nat, p: nat, ghost was: seq<Byte>, ghost pos: seq<nat>, ghost stop: nat,
                    ghost canon: Links, ghost hypot: Links)
      returns (size: Option<nat>)
      requires Progress(was, pos, typeOff, stop, canon, data[..], types, hypot, i, nextTypeId, p)
      requires i < |pos| == |canon| && canon[i] == i
      modifies this`types, data
      ensures size.Some? && i < |hypot| &&
              Progress(was, pos, typeOff, stop, canon, data[..], types, hypot[i := nextTypeId], i + 1, nextTypeId + 1,
                       p + size.value)
    {
      ProgressFinds(was, pos, typeOff, stop, canon, data[..], types, hypot, i, nextTypeId, p);
      hide Progress, TypeSize;
      ghost var before := data[..];
      size := MoveType(types[i], p);
      if size.Some? {
        ProgressKeeps(was, pos, typeOff, stop, canon, before, types, hypot, i, nextTypeId, p, data[..], size.value);
        types := types[nextTypeId := p];
      }
    }

    /** One round of the loop of btf_dedup_compact_types. */
    method CompactType(i: nat, canon: Links, hypot0: Links, nextTypeId0: nat, p0: nat, ghost was: seq<Byte>,
                       ghost pos: seq<nat>, ghost stop: nat)
      returns (ok: bool, hypot: Links, nextTypeId: nat, p: nat)
      requires Progress(was, pos, typeOff, stop, canon, data[..], types, hypot0, i, nextTypeId0, p0)
      requires i < |pos| == |canon| == |hypot0|
      modifies this`types, data
      ensures ok && |hypot| == |hypot0|
      ensures Progress(was, pos, typeOff, stop, canon, data[..], types, hypot, i + 1, nextTypeId, p)
    {
      hide *;
      ok, hypot, nextTypeId, p := true, hypot0, nextTypeId0, p0;
      if canon[i] != i {
        ProgressSkips(was, pos, typeOff, stop, canon, data[..], types, hypot, i, nextTypeId, p);
        return;
      }
      var size := KeepType(i, nextTypeId, p, was, pos, stop, canon, hypot);
      if size == None {
        return false, hypot, nextTypeId, p;
      }
      hypot := hypot[i := nextTypeId];
      p := p + size.value;
      nextTypeId := nextTypeId + 1;
    }

    /** Before the loop nothing but void has a new number. */
    method FreshNumbers(canon: Links, ghost stop: nat) returns (hypot: Links)
      requires LaidOut(data[..], types, typeOff, stop) && |canon| == |types| && canon[0] == 0
      ensures |hypot| == |types|
      ensures Progress(data[..], types, typeOff, stop, canon, data[..], types, hypot, 1, 1, typeOff)
    {
      hypot := seq(|types|, i => if i == 0 then 0 else UNPROCESSED);
      ProgressBegins(data[..], types, typeOff, stop, canon, hypot);
    }

    /** The loop of btf_dedup_compact_types. */
    method MoveTypes(canon: Links, ghost stop: nat) returns (ok: bool, hypot: Links, nextTypeId: nat, p: nat)
      requires LaidOut(data[..], types, typeOff, stop) && |canon| == |types| && canon[0] == 0
      modifies this`types, data
      ensures ok
      ensures Progress(old(data[..]), old(types), typeOff, stop, canon, data[..], types, hypot, |canon|, nextTypeId, p)
    {
      assert |types| > 0;
      hide *;
      ghost var was, pos := data[..], types;
      var n := |types|;
      hypot := FreshNumbers(canon, stop);
      nextTypeId, p := 1, typeOff;
      for i := 1 to n
        invariant |hypot| == n && Progress(was, pos, typeOff, stop, canon, data[..], types, hypot, i, nextTypeId, p)
      {
        ok, hypot, nextTypeId, p := CompactType(i, canon, hypot, nextTypeId, p, was, pos, stop);
        if !ok {
          return;
        }
      }
      ok := true;
    }

    /** btf_dedup_compact_types on the bytes, for a section whose last record ends
        at `stop`, which a walk lets lie behind the start of the strings: the
        records of the representatives end up one after the other, in order, with
        the strings right behind them, and `hypot` numbers the representatives
        consecutively; unless the strings come to lie outside the memory. They do
        not if the last record ended where the strings began. */
    method CompactTypes(canon: Links, ghost stop: nat) returns (ok: bool, overrun: bool, hypot: Links)
      requires LaidOut(data[..], types, typeOff, stop) && strOff + strLen <= data.Length
      requires |canon| == |types| && canon[0] == 0
      modifies this`types, this`typeLen, this`strOff, this`dataSize, data
      ensures ok && Numbered(canon, hypot, |canon|)
      ensures overrun <==>
                typeOff + |Kept(old(data[..]), old(types), typeOff, stop, canon, |canon|)| + strLen > data.Length
      ensures stop == old(strOff) ==> !overrun
      ensures !overrun ==>
                && CompactImage(old(data[..]), old(types), typeOff, stop, canon, old(strOff), strLen, data[..], types,
                                strOff)
                && typeOff + typeLen == strOff && dataSize == strOff + strLen <= data.Length
    {
      hide LaidOut, Progress, Numbered, CompactImage, Overwrite;
      ghost var was, pos := data[..], types;
      var nextTypeId, p;
      ok, hypot, nextTypeId, p := MoveTypes(canon, stop);
      overrun := false;
      if !ok {
        return;
      }
      ghost var before := data[..];
      ProgressDone(was, pos, typeOff, stop, canon, before, types, hypot, nextTypeId, p);
      typeLen := p - typeOff;
      if p + strLen > data.Length {
        return ok, true, hypot;
      }
      Memmove(data, p, strOff, strLen);
      Finished(was, pos, typeOff, stop, canon, before, data[..], types, hypot, nextTypeId, p, strOff, strLen);
      types := types[..nextTypeId];
      strOff := p;
      dataSize := strOff + strLen;
    }
  }
}
