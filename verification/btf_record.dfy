/** Type descriptors as bytes (linux/btf.h, little-endian), and what compaction of
    the bytes does to the descriptors they stand for. */
module BtfRecord {
  import opened BtfLayout
  import opened BtfTypes
  import opened CanonMap
  import opened DedupResult
  import opened Options
  import opened Words

  /** Word k of a record. */
  function WordAt(r: seq<Byte>, k: nat): (w: nat)
    requires 4 * k + 4 <= |r|
    ensures w < U32
  {
    r[4 * k] as nat + 0x100 * r[4 * k + 1] as nat + 0x1_0000 * r[4 * k + 2] as nat + 0x100_0000 * r[4 * k + 3] as nat
  }

  /** A word as a signed integer. */
  function Signed(w: nat): int {
    if w < U32 / 2 then w else w - U32
  }

  function KindOf(n: nat): Kind {
    match n
    case 1 => Int
    case 2 => Ptr
    case 3 => Kind.Array
    case 4 => Struct
    case 5 => Union
    case 6 => Enum
    case 7 => Fwd
    case 8 => Typedef
    case 9 => Volatile
    case 10 => Const
    case 11 => Restrict
    case 12 => Func
    case 13 => FuncProto
    case 14 => Var
    case 15 => DataSec
    case _ => Unkn
  }

  function NumberOf(k: Kind): (n: nat)
    ensures n < 16 && KindOf(n) == k
  {
    match k
    case Unkn => 0
    case Int => 1
    case Ptr => 2
    case Array => 3
    case Struct => 4
    case Union => 5
    case Enum => 6
    case Fwd => 7
    case Typedef => 8
    case Volatile => 9
    case Const => 10
    case Restrict => 11
    case Func => 12
    case FuncProto => 13
    case Var => 14
    case DataSec => 15
  }

  /** The words that follow the header of a descriptor: of the kind's own struct, or
      of vlen structs. */
  function PayloadWords(k: Kind, vlen: nat): nat {
    match k
    case Int | Var => 1
    case Array => 3
    case Struct | Union | DataSec => 3 * vlen
    case Enum | FuncProto => 2 * vlen
    case _ => 0
  }

  /** A record whose length is the one its own header gives. */
  predicate IsRecord(r: seq<Byte>) {
    |r| >= HEADER && TypeSize(r, 0) == Some(|r|)
  }

  function InfoOf(r: seq<Byte>): Info
    requires |r| >= INFO_END
  {
    Info(KindOf(r[7] as nat % 16), r[7] >= 128, r[4] as nat + 0x100 * r[5] as nat)
  }

  lemma RecordLength(r: seq<Byte>)
    requires IsRecord(r)
    ensures |r| == 4 * (3 + PayloadWords(InfoOf(r).kind, InfoOf(r).vlen)) && InfoOf(r).kind != Unkn
  {
  }

  function DecodePayload(r: seq<Byte>, k: Kind, vlen: nat): Payload
    requires |r| == 4 * (3 + PayloadWords(k, vlen))
  {
    match k
    case Int => IntData(WordAt(r, 3))
    case Array => ArrayData(WordAt(r, 3), WordAt(r, 4), WordAt(r, 5))
    case Struct | Union =>
      Members(seq(vlen, i requires 0 <= i < vlen =>
                    Member(WordAt(r, 3 + 3 * i), WordAt(r, 4 + 3 * i), WordAt(r, 5 + 3 * i))))
    case Enum =>
      Enumerators(seq(vlen, i requires 0 <= i < vlen =>
                    Enumerator(WordAt(r, 3 + 2 * i), Signed(WordAt(r, 4 + 2 * i)))))
    case FuncProto => Params(seq(vlen, i requires 0 <= i < vlen => Param(WordAt(r, 3 + 2 * i), WordAt(r, 4 + 2 * i))))
    case Var => VarData(WordAt(r, 3))
    case DataSec =>
      SecInfos(seq(vlen, i requires 0 <= i < vlen =>
                    SecInfo(WordAt(r, 3 + 3 * i), WordAt(r, 4 + 3 * i), WordAt(r, 5 + 3 * i))))
    case _ => Nothing
  }

  /** The descriptor that a record stands for. */
  function Decode(r: seq<Byte>): BtfType
    requires IsRecord(r)
  {
    RecordLength(r);
    BtfType(WordAt(r, 0), InfoOf(r), WordAt(r, 2), DecodePayload(r, InfoOf(r).kind, InfoOf(r).vlen))
  }

  /* Writing descriptors. */

  function InfoWord(i: Info): nat {
    i.vlen + 0x100_0000 * NumberOf(i.kind) + if i.kflag then 0x8000_0000 else 0
  }

  /** Word k of what follows the header. */
  function PayloadWord(p: Payload, k: nat): int {
    match p
    case IntData(bits) => bits
    case ArrayData(elem, index, nelems) => if k == 0 then elem else if k == 1 then index else nelems
    case Members(ms) =>
      if k / 3 >= |ms| then 0
      else if k % 3 == 0 then ms[k / 3].nameOff else if k % 3 == 1 then ms[k / 3].typ else ms[k / 3].offset
    case Enumerators(es) => if k / 2 >= |es| then 0 else if k % 2 == 0 then es[k / 2].nameOff else es[k / 2].val % U32
    case Params(ps) => if k / 2 >= |ps| then 0 else if k % 2 == 0 then ps[k / 2].nameOff else ps[k / 2].typ
    case VarData(linkage) => linkage
    case SecInfos(vs) =>
      if k / 3 >= |vs| then 0
      else if k % 3 == 0 then vs[k / 3].typ else if k % 3 == 1 then vs[k / 3].offset else vs[k / 3].size
    case Nothing => 0
  }

  /** Word k of the whole record. */
  function RecordWord(t: BtfType, k: nat): int {
    match k
    case 0 => t.nameOff
    case 1 => InfoWord(t.info)
    case 2 => t.size
    case _ => PayloadWord(t.payload, k - 3)
  }

  /** Every number has room in its field. */
  ghost predicate Fits(t: BtfType) {
    && WellFormed(t) && t.info.kind != Unkn && t.info.vlen < 0x1_0000 && t.nameOff < U32 && t.size < U32
    && (forall k: nat :: k < PayloadWords(t.info.kind, t.info.vlen) ==> 0 <= PayloadWord(t.payload, k) < U32)
    && (t.payload.Enumerators? ==>
          forall i :: 0 <= i < |t.payload.enumerators| ==> -(U32 / 2) <= t.payload.enumerators[i].val < U32 / 2)
  }

  /** Byte i of a word, the low one first. */
  function ByteOf(w: int, i: nat): Byte {
    (match i
     case 0 => w % 0x100
     case 1 => w / 0x100 % 0x100
     case 2 => w / 0x1_0000 % 0x100
     case _ => w / 0x100_0000 % 0x100) as Byte
  }

  function Encode(t: BtfType): (r: seq<Byte>)
    ensures |r| == 4 * (3 + PayloadWords(t.info.kind, t.info.vlen))
  {
    seq(4 * (3 + PayloadWords(t.info.kind, t.info.vlen)), j requires 0 <= j => ByteOf(RecordWord(t, j / 4), j % 4))
  }

  lemma WordOfBytes(w: nat)
    requires w < U32
    ensures ByteOf(w, 0) as nat + 0x100 * ByteOf(w, 1) as nat + 0x1_0000 * ByteOf(w, 2) as nat
            + 0x100_0000 * ByteOf(w, 3) as nat == w
  {
    assert w / 0x1_0000 == w / 0x100 / 0x100;
    assert w / 0x100_0000 == w / 0x100 / 0x100 / 0x100;
  }

  /** The words of a record are found again. */
  lemma EncodedWord(t: BtfType, k: nat)
    requires Fits(t) && k < 3 + PayloadWords(t.info.kind, t.info.vlen)
    ensures 4 * k + 4 <= |Encode(t)| && WordAt(Encode(t), k) == RecordWord(t, k)
  {
    assert 0 <= RecordWord(t, k) < U32;
    assert (4 * k) / 4 == k && (4 * k + 1) / 4 == k && (4 * k + 2) / 4 == k && (4 * k + 3) / 4 == k;
    assert (4 * k) % 4 == 0 && (4 * k + 1) % 4 == 1 && (4 * k + 2) % 4 == 2 && (4 * k + 3) % 4 == 3;
    WordOfBytes(RecordWord(t, k));
  }

  /** The bytes of an info word. */
  lemma InfoBytes(vlen: nat, top: nat, w: nat)
    requires vlen < 0x1_0000 && top < 0x100 && w == vlen + 0x100_0000 * top
    ensures ByteOf(w, 0) as nat + 0x100 * ByteOf(w, 1) as nat == vlen && ByteOf(w, 3) as nat == top
  {
    WordOfBytes(w);
    hide ByteOf;
  }

  lemma EncodedInfo(t: BtfType)
    requires Fits(t)
    ensures InfoOf(Encode(t)) == t.info
  {
    var r, w := Encode(t), InfoWord(t.info);
    assert r[4] == ByteOf(w, 0) && r[5] == ByteOf(w, 1) && r[7] == ByteOf(w, 3);
    hide Encode, ByteOf;
    InfoBytes(t.info.vlen, NumberOf(t.info.kind) + if t.info.kflag then 128 else 0, w);
  }

  /** btf_type_size gives the length of every record, and reading it gives the
      descriptor it was written from. */
  lemma RoundTrip(t: BtfType)
    requires Fits(t)
    ensures TypeSize(Encode(t), 0) == Some(|Encode(t)|) && Decode(Encode(t)) == t
  {
    EncodedInfo(t);
    var r := Encode(t);
    EncodedSize(r);
    EncodedWord(t, 0);
    EncodedWord(t, 2);
    hide TypeSize, Encode;
    DecodedPayload(t);
  }

  /** The size that a header gives. */
  lemma EncodedSize(r: seq<Byte>)
    requires |r| >= HEADER
    ensures TypeSize(r, 0) ==
              if InfoOf(r).kind == Unkn then None else Some(4 * (3 + PayloadWords(InfoOf(r).kind, InfoOf(r).vlen)))
  {
  }

  lemma DecodedPayload(t: BtfType)
    requires Fits(t)
    ensures DecodePayload(Encode(t), t.info.kind, t.info.vlen) == t.payload
  {
    hide Encode, WordAt, ByteOf;
    var p := DecodePayload(Encode(t), t.info.kind, t.info.vlen);
    match t.info.kind
    case Int | Var =>
      PayloadAt(t, 0);
    case Array =>
      PayloadAt(t, 0);
      PayloadAt(t, 1);
      PayloadAt(t, 2);
    case Struct | Union =>
      forall i | 0 <= i < t.info.vlen
        ensures p.members[i] == t.payload.members[i]
      {
        ThreeAt(t, i);
      }
      assert p.members == t.payload.members;
    case DataSec =>
      forall i | 0 <= i < t.info.vlen
        ensures p.infos[i] == t.payload.infos[i]
      {
        ThreeAt(t, i);
      }
      assert p.infos == t.payload.infos;
    case Enum =>
      forall i | 0 <= i < t.info.vlen
        ensures p.enumerators[i] == t.payload.enumerators[i]
      {
        TwoAt(t, i);
      }
      assert p.enumerators == t.payload.enumerators;
    case FuncProto =>
      forall i | 0 <= i < t.info.vlen
        ensures p.params[i] == t.payload.params[i]
      {
        TwoAt(t, i);
      }
      assert p.params == t.payload.params;
    case _ =>
  }

  lemma ThreeAt(t: BtfType, i: nat)
    requires Fits(t) && i < t.info.vlen && PayloadWords(t.info.kind, t.info.vlen) == 3 * t.info.vlen
    ensures WordAt(Encode(t), 3 + 3 * i) == PayloadWord(t.payload, 3 * i)
    ensures WordAt(Encode(t), 4 + 3 * i) == PayloadWord(t.payload, 3 * i + 1)
    ensures WordAt(Encode(t), 5 + 3 * i) == PayloadWord(t.payload, 3 * i + 2)
    ensures 3 * i / 3 == i == (3 * i + 1) / 3 == (3 * i + 2) / 3
    ensures 3 * i % 3 == 0 && (3 * i + 1) % 3 == 1 && (3 * i + 2) % 3 == 2
  {
    hide Encode, WordAt, PayloadWord, Fits, NumberOf;
    PayloadAt(t, 3 * i);
    PayloadAt(t, 3 * i + 1);
    PayloadAt(t, 3 * i + 2);
  }

  lemma TwoAt(t: BtfType, i: nat)
    requires Fits(t) && i < t.info.vlen && PayloadWords(t.info.kind, t.info.vlen) == 2 * t.info.vlen
    ensures WordAt(Encode(t), 3 + 2 * i) == PayloadWord(t.payload, 2 * i)
    ensures WordAt(Encode(t), 4 + 2 * i) == PayloadWord(t.payload, 2 * i + 1)
    ensures 2 * i / 2 == i == (2 * i + 1) / 2 && 2 * i % 2 == 0 && (2 * i + 1) % 2 == 1
  {
    hide Encode, WordAt, PayloadWord, Fits, NumberOf;
    PayloadAt(t, 2 * i);
    PayloadAt(t, 2 * i + 1);
  }

  lemma PayloadAt(t: BtfType, j: nat)
    requires Fits(t) && j < PayloadWords(t.info.kind, t.info.vlen)
    ensures 4 * (3 + j) + 4 <= |Encode(t)| && WordAt(Encode(t), 3 + j) == PayloadWord(t.payload, j)
  {
    EncodedWord(t, 3 + j);
  }

  /* Compaction. */

  lemma RecordIsRecord(data: seq<Byte>, pos: seq<nat>, start: nat, end: nat, x: nat)
    requires LaidOut(data, pos, start, end) && 0 < x < |pos|
    ensures Start(pos, end, x) <= Start(pos, end, x + 1) <= |data| && IsRecord(Record(data, pos, end, x))
  {
    assert RecordFits(data, pos, end, x);
    var r := Record(data, pos, end, x);
    assert r[0..HEADER] == data[pos[x]..pos[x] + HEADER];
    SizeMoves(data, pos[x], r, 0);
  }

  /** The types that a section stands for. */
  ghost function Graph(data: seq<Byte>, pos: seq<nat>, start: nat, end: nat): (g: seq<BtfType>)
    requires LaidOut(data, pos, start, end)
    ensures |g| == |pos| && g[0] == VOID
  {
    seq(|pos|, x requires 0 <= x < |pos| =>
      if x == 0 then VOID
      else
        RecordIsRecord(data, pos, start, end, x);
        Decode(Record(data, pos, end, x)))
  }

  /** Compacting the bytes compacts the types they stand for. */
  lemma CompactImageIsCompacted(was: seq<Byte>, pos: seq<nat>, start: nat, end: nat, m: Links, strs: nat, strLen: nat,
                                data: seq<Byte>, types: seq<nat>, strOff: nat)
    requires CompactImage(was, pos, start, end, m, strs, strLen, data, types, strOff) && m[0] == 0
    ensures |m| == |pos| && |Graph(data, types, start, strOff)| == |Survivors(m, |m|)|
    ensures Compacted(Graph(was, pos, start, end), m, Graph(data, types, start, strOff), |m|)
  {
    SurvivorsAre(m, |m|);
    FirstSurvivor(m, |m|);
    hide LaidOut, Kept, Decode, Record, Survivors;
    var g, h, ids := Graph(was, pos, start, end), Graph(data, types, start, strOff), Survivors(m, |m|);
    forall j | 0 <= j < |ids|
      ensures ids[j] < |g| && h[j] == g[ids[j]]
    {
      if j > 0 {
        assert SameBytes(was, pos, end, ids[j], data, types, strOff, j);
      }
    }
  }
}
