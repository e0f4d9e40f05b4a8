/** The perf ring-buffer reader (eBPF_app/libbpf/src/libbpf.c). */
module PerfRing {
  import opened Words

  /** A record as the kernel wrote it: the header (type, misc, size), then the body. */
  type Record = seq<Byte>

  const HEADER: nat := 8

  /** perf_event_header.size, the little-endian word at offset 6. */
  function Size(header: seq<Byte>): (size: nat)
    requires |header| >= HEADER
    ensures size < 0x10000
  {
    header[6] as nat + 256 * header[7] as nat
  }

  /** The low n bytes of a word, lowest first. */
  function LittleEndian(w: nat, n: nat): (bytes: seq<Byte>)
    ensures |bytes| == n
    decreases n
  {
    if n == 0 then [] else [(w % 256) as Byte] + LittleEndian(w / 256, n - 1)
  }

  /** struct perf_event_header: a 32-bit type, then 16 bits each of misc and size. */
  function Header(typ: nat, misc: nat, size: nat): (header: seq<Byte>)
    ensures |header| == HEADER
  {
    LittleEndian(typ, 4) + LittleEndian(misc, 2) + LittleEndian(size, 2)
  }

  /** The size is read from where it is stored. */
  lemma SizeIsStored(typ: nat, misc: nat, size: nat, body: seq<Byte>)
    requires size < 0x10000
    ensures Size(Header(typ, misc, size) + body) == size
  {
    var a, b := LittleEndian(typ, 4) + LittleEndian(misc, 2), LittleEndian(size, 2);
    var h := a + b + body;
    assert h[6] == b[0] && h[7] == b[1];
    assert b[0] as nat == size % 256;
    assert b[1] == LittleEndian(size / 256, 1)[0];
  }

  predicate WellFormed(r: Record) {
    |r| >= HEADER && |r| % HEADER == 0 && Size(r) == |r|
  }

  ghost predicate AllWellFormed(records: seq<Record>) {
    forall i :: 0 <= i < |records| ==> WellFormed(records[i])
  }

  /** The byte stream of some records. */
  function Stream(records: seq<Record>): (bytes: seq<Byte>) {
    if records == [] then [] else records[0] + Stream(records[1..])
  }

  lemma {:induction false} StreamAppend(a: seq<Record>, r: Record)
    ensures Stream(a + [r]) == Stream(a) + r
  {
    if a == [] {
      assert Stream([r]) == r + Stream([]);
      assert [] + [r] == [r];
    } else {
      StreamAppend(a[1..], r);
      assert (a + [r])[1..] == a[1..] + [r];
    }
  }

  /** Records end on header boundaries. */
  lemma {:induction false} StreamAligned(a: seq<Record>)
    requires AllWellFormed(a)
    ensures |Stream(a)| % HEADER == 0
  {
    if a != [] {
      StreamAligned(a[1..]);
    }
  }

  /** The bytes of a stream from position `at` on lie in the ring, each at its
      position modulo the size. */
  ghost predicate InRing(ring: seq<Byte>, at: nat, bytes: seq<Byte>) {
    && 0 < |ring| && |bytes| <= |ring|
    && forall i: nat {:trigger bytes[i]} :: i < |bytes| ==> ring[(at + i) % |ring|] == bytes[i]
  }

  /** The bytes of the ring from offset `off`, going round the end. */
  function Wrapped(ring: seq<Byte>, off: nat, n: nat): (bytes: seq<Byte>)
    requires off < |ring| && n <= |ring|
    ensures |bytes| == n
  {
    if off + n <= |ring| then ring[off..off + n] else ring[off..] + ring[..off + n - |ring|]
  }

  /** What is read at the offset of `at` is the beginning of the stream there. */
  lemma WrappedIsPrefix(ring: seq<Byte>, at: nat, bytes: seq<Byte>, n: nat)
    requires InRing(ring, at, bytes) && n <= |bytes|
    ensures Wrapped(ring, at % |ring|, n) == bytes[..n]
  {
    var w := Wrapped(ring, at % |ring|, n);
    forall i | 0 <= i < n
      ensures w[i] == bytes[i]
    {
      ModStep(at, i, |ring|);
    }
  }

  /** ... and what follows it stays where it is. */
  lemma InRingRest(ring: seq<Byte>, at: nat, first: seq<Byte>, rest: seq<Byte>)
    requires InRing(ring, at, first + rest)
    ensures InRing(ring, at + |first|, rest)
  {
    forall i: nat | i < |rest|
      ensures ring[(at + |first| + i) % |ring|] == rest[i]
    {
      assert (first + rest)[|first| + i] == rest[i];
      assert at + (|first| + i) == at + |first| + i;
    }
  }

  /** A new byte written just past the stream extends it. */
  lemma InRingPut(ring: seq<Byte>, at: nat, bytes: seq<Byte>, b: Byte)
    requires InRing(ring, at, bytes) && |bytes| < |ring|
    ensures InRing(ring[(at + |bytes|) % |ring| := b], at, bytes + [b])
  {
    var ring', n := ring[(at + |bytes|) % |ring| := b], |ring|;
    forall i: nat | i < |bytes| + 1
      ensures ring'[(at + i) % n] == (bytes + [b])[i]
    {
      if i < |bytes| {
        if (at + i) % n == (at + |bytes|) % n {
          ModEqual(at + i, at + |bytes|, n);
        }
        assert ring[(at + i) % n] == bytes[i];
      }
    }
  }

  /** A header that starts on a header boundary does not wrap. */
  lemma HeaderFits(at: nat, size: nat)
    requires size > 0 && size % HEADER == 0 && at % HEADER == 0
    ensures at % size + HEADER <= size
  {
    var m := size / HEADER;
    ModMod(at, m, HEADER);
    assert size == m * HEADER;
    assert (at % size) % HEADER == 0;
  }

  /** At a record boundary the header's size and the record itself are there to be read. */
  lemma NextRecord(ring: seq<Byte>, at: nat, waiting: seq<Record>)
    requires InRing(ring, at, Stream(waiting)) && waiting != [] && AllWellFormed(waiting)
    requires |ring| % HEADER == 0 && at % HEADER == 0
    ensures at % |ring| + HEADER <= |ring| && Size(ring[at % |ring|..at % |ring| + HEADER]) == |waiting[0]| <= |ring|
    ensures Wrapped(ring, at % |ring|, |waiting[0]|) == waiting[0]
    ensures InRing(ring, at + |waiting[0]|, Stream(waiting[1..]))
    ensures (at + |waiting[0]|) % HEADER == 0
  {
    var r, off := waiting[0], at % |ring|;
    assert WellFormed(r);
    HeaderFits(at, |ring|);
    hide InRing, AllWellFormed;
    WrappedIsPrefix(ring, at, Stream(waiting), |r|);
    assert Stream(waiting)[..|r|] == r;
    WrappedIsPrefix(ring, at, Stream(waiting), HEADER);
    assert ring[off..off + HEADER] == r[..HEADER];
    InRingRest(ring, at, r, Stream(waiting[1..]));
    ModMultiple(at, |r|, HEADER);
  }

  /** What the callback answers: stop, stop with an error, or go on. */
  datatype Verdict = Done | Error | Continue

  /** How many of the waiting records the callback takes before it stops, if its
      answers depend on the records it has seen. */
  function Taken(fn: (seq<Record>, Record) -> Verdict, seen: seq<Record>, waiting: seq<Record>): (n: nat)
    ensures n <= |waiting|
    ensures waiting != [] ==> n > 0
    decreases |waiting|
  {
    if waiting == [] then 0
    else if fn(seen, waiting[0]) != Continue then 1
    else 1 + Taken(fn, seen + [waiting[0]], waiting[1..])
  }

  /** The records are taken while the callback says to go on, and it stops only
      where the callback says so or nothing is left. */
  lemma {:induction false} TakenWhileContinuing(fn: (seq<Record>, Record) -> Verdict, seen: seq<Record>,
                                                waiting: seq<Record>, k: nat)
    requires k < |waiting|
    ensures k + 1 < Taken(fn, seen, waiting) ==> fn(seen + waiting[..k], waiting[k]) == Continue
    ensures k + 1 == Taken(fn, seen, waiting) < |waiting| ==> fn(seen + waiting[..k], waiting[k]) != Continue
    decreases k
  {
    if k == 0 {
      assert seen + waiting[..0] == seen;
    } else {
      TakenWhileContinuing(fn, seen + [waiting[0]], waiting[1..], k - 1);
      assert seen + [waiting[0]] + waiting[1..][..k - 1] == seen + waiting[..k];
    }
  }

  /** The callback has taken n of the waiting records so far and answered `ret` last. */
  ghost predicate TakenSoFar(fn: (seq<Record>, Record) -> Verdict, seen: seq<Record>, waiting: seq<Record>, n: nat,
                             ret: Verdict) {
    && n <= |waiting|
    && Taken(fn, seen, waiting) == n + (if ret == Continue then Taken(fn, seen + waiting[..n], waiting[n..]) else 0)
    && ret == LastAnswer(fn, seen, waiting, n)
  }

  function LastAnswer(fn: (seq<Record>, Record) -> Verdict, seen: seq<Record>, waiting: seq<Record>, n: nat): Verdict
    requires n <= |waiting|
  {
    if n == 0 then Continue else fn(seen + waiting[..n - 1], waiting[n - 1])
  }

  lemma TakenNone(fn: (seq<Record>, Record) -> Verdict, seen: seq<Record>, waiting: seq<Record>)
    ensures TakenSoFar(fn, seen, waiting, 0, Continue)
  {
    assert seen + waiting[..0] == seen;
  }

  lemma TakenOneMore(fn: (seq<Record>, Record) -> Verdict, seen: seq<Record>, waiting: seq<Record>, n: nat)
    requires n < |waiting| && TakenSoFar(fn, seen, waiting, n, Continue)
    ensures seen + waiting[..n] + [waiting[n]] == seen + waiting[..n + 1]
    ensures TakenSoFar(fn, seen, waiting, n + 1, fn(seen + waiting[..n], waiting[n]))
  {
    assert seen + waiting[..n] + [waiting[n]] == seen + waiting[..n + 1];
    assert waiting[n..][1..] == waiting[n + 1..];
  }

  /** Stopping where the callback said so, or with nothing left, all it takes has been taken. */
  lemma AllTaken(fn: (seq<Record>, Record) -> Verdict, seen: seq<Record>, waiting: seq<Record>, n: nat, ret: Verdict)
    requires TakenSoFar(fn, seen, waiting, n, ret)
    ensures ret != Continue || n == |waiting| ==>
              n == Taken(fn, seen, waiting) && ret == LastAnswer(fn, seen, waiting, n)
  {
  }

  /** A ring is shorter than the counters can tell. */
  lemma RingLimits(bits: nat)
    requires 3 <= bits <= 63
    ensures HEADER <= Pow2(bits) < U64 && Pow2(bits) % HEADER == 0
  {
    Pow2Monotone(bits, 63);
    Pow2U64();
    Pow2Sum(bits - 3, 3);
    assert Pow2(3) == 8;
    ModIs(Pow2(bits), Pow2(bits - 3), 0, HEADER);
    Pow2Monotone(3, bits);
  }

  /** The counters point at the waiting records' bytes in the ring. */
  ghost predicate Cursor(ring: seq<Byte>, bits: nat, at: nat, tail: nat, head: nat, waiting: seq<Record>) {
    && 3 <= bits <= 63 && |ring| == Pow2(bits) && InRing(ring, at, Stream(waiting))
    && AllWellFormed(waiting) && at % HEADER == 0
    && tail == at % U64 && head == (at + |Stream(waiting)|) % U64
  }

  lemma StreamEmpty(records: seq<Record>)
    requires AllWellFormed(records)
    ensures Stream(records) == [] <==> records == []
  {
    if records != [] {
      assert WellFormed(records[0]);
    }
  }

  /** They rest on header boundaries. */
  lemma CursorAligned(ring: seq<Byte>, bits: nat, at: nat, tail: nat, head: nat, waiting: seq<Record>)
    requires Cursor(ring, bits, at, tail, head, waiting)
    ensures tail == at % U64 && tail % HEADER == 0 && head % HEADER == 0
  {
    hide InRing, Stream, AllWellFormed, Pow2;
    StreamAligned(waiting);
    WordAligned(at, 0);
    WordAligned(at, |Stream(waiting)|);
  }

  lemma WordAligned(at: nat, n: nat)
    requires at % HEADER == 0 && n % HEADER == 0
    ensures ((at + n) % U64) % HEADER == 0
  {
    ModMod(at + n, U64 / HEADER, HEADER);
  }

  /** The counters differ exactly when a record is waiting. */
  lemma CursorEnd(ring: seq<Byte>, bits: nat, at: nat, tail: nat, head: nat, waiting: seq<Record>)
    requires Cursor(ring, bits, at, tail, head, waiting)
    ensures tail < U64 && head < U64 && (head == tail <==> waiting == [])
    ensures Distance(tail, head) == |Stream(waiting)| <= |ring|
  {
    hide *;
    CursorParts(ring, bits, at, tail, head, waiting);
    StreamEmpty(waiting);
    DistanceIs(at, |Stream(waiting)|);
    DistanceZero(tail, head);
  }

  lemma CursorParts(ring: seq<Byte>, bits: nat, at: nat, tail: nat, head: nat, waiting: seq<Record>)
    requires Cursor(ring, bits, at, tail, head, waiting)
    ensures AllWellFormed(waiting) && |Stream(waiting)| <= |ring| < U64
    ensures tail == at % U64 < U64 && head == (at + |Stream(waiting)|) % U64 < U64
  {
    RingLimits(bits);
    hide Stream, AllWellFormed, Pow2;
  }

  /** Reading one record moves the cursor to the next. */
  lemma CursorStep(ring: seq<Byte>, bits: nat, at: nat, tail: nat, head: nat, waiting: seq<Record>)
    requires Cursor(ring, bits, at, tail, head, waiting) && waiting != []
    ensures var off := And(tail, |ring| - 1);
            && off + HEADER <= |ring| && Size(ring[off..off + HEADER]) == |waiting[0]| <= |ring|
            && Wrapped(ring, off, |waiting[0]|) == waiting[0]
    ensures Cursor(ring, bits, at + |waiting[0]|, (tail + |waiting[0]|) % U64, head, waiting[1..])
  {
    RingLimits(bits);
    RingPosition(at, 0, bits);
    NextRecord(ring, at, waiting);
    ModAdd(at, |waiting[0]|, U64);
  }

  /** Writing a record past the head makes it wait behind the others. */
  lemma CursorAppend(ring: seq<Byte>, ring': seq<Byte>, bits: nat, at: nat, tail: nat, head: nat, waiting: seq<Record>,
                     r: Record)
    requires Cursor(ring, bits, at, tail, head, waiting) && WellFormed(r)
    requires |ring'| == |ring| && InRing(ring', at, Stream(waiting) + r)
    ensures Cursor(ring', bits, at, tail, (head + |r|) % U64, waiting + [r])
  {
    hide InRing, Stream, WellFormed;
    StreamAppend(waiting, r);
    ModAdd(at + |Stream(waiting)|, |r|, U64);
  }

  class Ring {
    const bits: nat
    const base: array<Byte>           // the data pages, mmap_size bytes
    var dataHead: nat
    var dataTail: nat
    var copyMem: array<Byte>
    var received: seq<Record>         // what the callback has been given
    ghost var waiting: seq<Record>    // in the ring, not yet read
    ghost var bytesRead: nat
    ghost var records: seq<Record>    // everything the kernel stored

    ghost predicate Valid()
      reads this, base, copyMem
    {
      && base != copyMem && received + waiting == records && bytesRead == |Stream(received)|
      && Cursor(base[..], bits, bytesRead, dataTail, dataHead, waiting)
    }

    /** A fresh ring of a power-of-two size. */
    constructor (bits: nat)
      requires 3 <= bits <= 63
      ensures Valid() && fresh(base) && fresh(copyMem)
      ensures received == waiting == [] && this.bits == bits
    {
      this.bits := bits;
      base := new Byte[Pow2(bits)](_ => 0);
      copyMem := new Byte[0];
      dataHead, dataTail := 0, 0;
      received, waiting, records, bytesRead := [], [], [], 0;
    }

    /** The kernel stores a record past the head, if there is room for it. */
    method Produce(r: Record) returns (stored: bool)
      requires Valid() && WellFormed(r)
      modifies this`dataHead, this`waiting, this`records, base
      ensures Valid() && stored == (|Stream(old(waiting))| + |r| <= base.Length)
      ensures waiting == if stored then old(waiting) + [r] else old(waiting)
      ensures records == if stored then old(records) + [r] else old(records)
    {
      hide Stream, WellFormed;
      CursorEnd(base[..], bits, bytesRead, dataTail, dataHead, waiting);
      stored := Distance(dataTail, dataHead) + |r| <= base.Length;
      if stored {
        Write(Stream(waiting), r);
        CursorAppend(old(base[..]), base[..], bits, bytesRead, dataTail, dataHead, waiting, r);
        dataHead := (dataHead + |r|) % U64;
        waiting := waiting + [r];
        records := records + [r];
      }
    }

    /** Copy a record's bytes to the head, byte after byte. */
    method Write(ghost unread: seq<Byte>, r: Record)
      requires bits <= 64 && base.Length == Pow2(bits) && |unread| + |r| <= base.Length
      requires InRing(base[..], bytesRead, unread) && dataHead == (bytesRead + |unread|) % U64
      modifies base
      ensures InRing(base[..], bytesRead, unread + r)
    {
      hide InRing;
      assert unread + r[..0] == unread;
      for i := 0 to |r|
        invariant InRing(base[..], bytesRead, unread + r[..i])
      {
        InRingPut(base[..], bytesRead, unread + r[..i], r[i]);
        RingPosition(bytesRead + |unread|, i, bits);
        var p := And(dataHead + i, base.Length - 1);
        ghost var was := base[..];
        base[p] := r[i];
        assert base[..] == was[p := r[i]];
        assert unread + r[..i] + [r[i]] == unread + r[..i + 1];
      }
      assert r[..|r|] == r;
    }

    /** Put the two ends of a record that goes round the end of the ring together. */
    method Reassemble(off: nat, size: nat)
      requires off < base.Length < off + size && size <= base.Length && base != copyMem
      modifies this`copyMem, copyMem
      ensures (copyMem == old(copyMem) || fresh(copyMem)) && base != copyMem
      ensures size <= copyMem.Length && copyMem[..size] == Wrapped(base[..], off, size)
    {
      var lenFirst := base.Length - off;
      var lenSecnd := size - lenFirst;
      if copyMem.Length < size {
        copyMem := new Byte[size];
      }
      forall i | 0 <= i < lenFirst {
        copyMem[i] := base[off + i];
      }
      forall i | 0 <= i < lenSecnd {
        copyMem[lenFirst + i] := base[i];
      }
      assert forall i :: 0 <= i < lenSecnd ==> copyMem[lenFirst + i] == base[i];
    }

    /** The record at the tail, as a whole. */
    method Fetch(tail: nat, ghost head: nat) returns (event: Record, size: nat)
      requires Cursor(base[..], bits, bytesRead, tail, head, waiting) && waiting != [] && base != copyMem
      modifies this`copyMem, copyMem
      ensures base != copyMem && (copyMem == old(copyMem) || fresh(copyMem))
      ensures event == waiting[0] && size == |event|
      ensures Cursor(base[..], bits, bytesRead + size, (tail + size) % U64, head, waiting[1..])
    {
      CursorStep(base[..], bits, bytesRead, tail, head, waiting);
      hide Cursor;
      var off := And(tail, base.Length - 1);
      size := Size(base[off..off + HEADER]);
      if off + size > base.Length {
        Reassemble(off, size);
        event := copyMem[..size];
      } else {
        event := base[off..off + size];
      }
    }

    /** bpf_perf_event_read_simple: the callback is given the waiting records,
        each once, whole and in order, until it says to stop; then the tail is
        moved past them. */
    method ReadSimple(fn: (seq<Record>, Record) -> Verdict) returns (ret: Verdict)
      requires Valid()
      modifies this`dataTail, this`copyMem, this`received, this`waiting, this`bytesRead, copyMem
      ensures Valid() && (copyMem == old(copyMem) || fresh(copyMem))
      ensures var n := Taken(fn, old(received), old(waiting));
              && received == old(received) + old(waiting)[..n] && waiting == old(waiting)[n..]
              && ret == LastAnswer(fn, old(received), old(waiting), n)
      ensures dataTail == |Stream(received)| % U64 && dataTail % HEADER == 0 && dataHead % HEADER == 0
    {
      hide Stream, Cursor, TakenSoFar, LastAnswer;
      var head: nat, tail: nat := dataHead, dataTail;
      ret := Continue;
      ghost var seen, w, n: nat := received, waiting, 0;
      TakenNone(fn, seen, w);
      while head != tail
        modifies this`copyMem, this`received, this`bytesRead, this`waiting, copyMem
        invariant base != copyMem && (copyMem == old(copyMem) || fresh(copyMem))
        invariant n <= |w| && waiting == w[n..] && received == seen + w[..n]
        invariant Cursor(base[..], bits, bytesRead, tail, head, waiting) && bytesRead == |Stream(received)|
        invariant TakenSoFar(fn, seen, w, n, ret) && ret == Continue
        decreases |waiting|
      {
        CursorEnd(base[..], bits, bytesRead, tail, head, waiting);
        var event, size := Fetch(tail, head);
        ret := fn(received, event);
        TakenOneMore(fn, seen, w, n);
        StreamAppend(received, event);
        received := received + [event];
        waiting, bytesRead, n := waiting[1..], bytesRead + size, n + 1;
        tail := (tail + size) % U64;
        if ret != Continue {
          break;
        }
      }
      AllTaken(fn, seen, w, n, ret);
      CursorEnd(base[..], bits, bytesRead, tail, head, waiting);
      CursorAligned(base[..], bits, bytesRead, tail, head, waiting);
      dataTail := tail;
    }
  }
}
