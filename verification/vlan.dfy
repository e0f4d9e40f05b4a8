/** VLAN tags: pushing and popping (eBPF_app/common/rewrite_helpers.h) and
    parsing (eBPF_app/common/parsing_helpers.h), on a little-endian machine. */
module Vlan {
  import opened Words

  const ETH_HLEN: nat := 14
  const PROTO: nat := 12
  const VLAN_HLEN: nat := 4
  const ETH_P_8021Q: nat := 0x8100
  const ETH_P_8021AD: nat := 0x88A8
  const VLAN_MAX_DEPTH: nat := 2
  const VLAN_VID_MASK: nat := 0x0fff

  /** A 16-bit word as the machine loads it from memory. */
  function Word(bytes: seq<Byte>, at: nat): (w: nat)
    requires at + 2 <= |bytes|
    ensures w < 0x10000
  {
    bytes[at] as nat + 256 * bytes[at + 1] as nat
  }

  /** The bytes of a word in network order. */
  function BigEndian(w: nat): (bytes: seq<Byte>)
    requires w < 0x10000
    ensures |bytes| == 2
  {
    [(w / 256) as Byte, (w % 256) as Byte]
  }

  /** bpf_htons and bpf_ntohs. */
  function Swap(w: nat): (r: nat)
    requires w < 0x10000
    ensures r < 0x10000
  {
    w / 256 + 256 * (w % 256)
  }

  /** A swapped word in memory is the word in network order, and loads back. */
  lemma SwappedIsBigEndian(bytes: seq<Byte>, at: nat, w: nat)
    requires at + 2 <= |bytes| && w < 0x10000 && bytes[at..at + 2] == BigEndian(w)
    ensures Word(bytes, at) == Swap(w) && Swap(Word(bytes, at)) == w
  {
    assert bytes[at] == bytes[at..at + 2][0] && bytes[at + 1] == bytes[at..at + 2][1];
  }

  /** A 16-bit word as the machine stores it. */
  function Stored(w: nat): (bytes: seq<Byte>)
    requires w < 0x10000
    ensures |bytes| == 2
  {
    [(w % 256) as Byte, (w / 256) as Byte]
  }

  lemma StoredWord(bytes: seq<Byte>, at: nat)
    requires at + 2 <= |bytes|
    ensures Stored(Word(bytes, at)) == bytes[at..at + 2]
  {
  }

  lemma WordFrom(bytes: seq<Byte>, from: nat, at: nat)
    requires from + at + 2 <= |bytes|
    ensures Word(bytes[from..], at) == Word(bytes, from + at)
  {
  }

  lemma StoredSwap(w: nat)
    requires w < 0x10000
    ensures Stored(Swap(w)) == BigEndian(w)
  {
  }

  /** A frame with two of its bytes replaced. */
  function Put(frame: seq<Byte>, at: nat, bytes: seq<Byte>): (r: seq<Byte>)
    requires at + |bytes| <= |frame|
    ensures |r| == |frame|
  {
    frame[..at] + bytes + frame[at + |bytes|..]
  }

  /** The 16-bit value of an int argument. */
  function Truncate(v: int): (w: nat)
    ensures w < 0x10000
  {
    v % 0x10000
  }

  predicate ProtoIsVlan(hProto: nat) {
    hProto == Swap(ETH_P_8021Q) || hProto == Swap(ETH_P_8021AD)
  }

  /** A frame with a tag in front of its protocol field. */
  function Pushed(frame: seq<Byte>, vlid: int): (r: seq<Byte>)
    requires |frame| >= ETH_HLEN
    ensures |r| == |frame| + VLAN_HLEN
  {
    frame[..PROTO] + BigEndian(ETH_P_8021Q) + BigEndian(Truncate(vlid)) + frame[PROTO..]
  }

  predicate Tagged(frame: seq<Byte>) {
    |frame| >= ETH_HLEN + VLAN_HLEN && ProtoIsVlan(Word(frame, PROTO))
  }

  /** Behind the addresses are the bytes 81 00 of an 802.1Q tag or 88 a8 of an 802.1AD one. */
  lemma TaggedInBytes(frame: seq<Byte>)
    ensures Tagged(frame) <==>
            |frame| >= 18 && ((frame[12] == 0x81 && frame[13] == 0) || (frame[12] == 0x88 && frame[13] == 0xa8))
  {
  }

  /** A frame without its outermost tag. */
  function Popped(frame: seq<Byte>): (r: seq<Byte>)
    requires |frame| >= ETH_HLEN + VLAN_HLEN
    ensures |r| == |frame| - VLAN_HLEN
  {
    frame[..PROTO] + frame[PROTO + VLAN_HLEN..]
  }

  /** The outermost tag: priority and VLAN id. */
  function Tci(frame: seq<Byte>): (tci: nat)
    requires |frame| >= ETH_HLEN + VLAN_HLEN
    ensures tci < 0x10000
  {
    Swap(Word(frame, ETH_HLEN))
  }

  /** Popping a tag just pushed gives back every byte, and the tag. */
  lemma PopAfterPush(frame: seq<Byte>, vlid: int)
    requires |frame| >= ETH_HLEN
    ensures Tagged(Pushed(frame, vlid)) && Popped(Pushed(frame, vlid)) == frame
    ensures Tci(Pushed(frame, vlid)) == Truncate(vlid)
  {
    var p := Pushed(frame, vlid);
    assert p[PROTO..PROTO + 2] == BigEndian(ETH_P_8021Q);
    assert p[ETH_HLEN..ETH_HLEN + 2] == BigEndian(Truncate(vlid));
    hide Word, Swap, BigEndian;
    SwappedIsBigEndian(p, PROTO, ETH_P_8021Q);
    SwappedIsBigEndian(p, ETH_HLEN, Truncate(vlid));
  }

  /** Pushing back a tag just popped gives the frame back exactly if the tag was
      an 802.1Q one: pushing never makes an 802.1AD tag. */
  lemma PushAfterPop(frame: seq<Byte>)
    requires Tagged(frame)
    ensures Pushed(Popped(frame), Tci(frame)) == frame <==> Word(frame, PROTO) == Swap(ETH_P_8021Q)
  {
    var p := Pushed(Popped(frame), Tci(frame));
    BigEndianIsSwapped(frame, ETH_HLEN);
    BigEndianIsSwapped(frame, PROTO);
    Rebuilt(frame);
    hide Word, Swap, BigEndian, Pushed, Popped;
    SwappedIsBigEndian(p, PROTO, ETH_P_8021Q);
  }

  /** Only the tag's own protocol is not put back from the frame. */
  lemma Rebuilt(frame: seq<Byte>)
    requires |frame| >= ETH_HLEN + VLAN_HLEN && BigEndian(Tci(frame)) == frame[ETH_HLEN..ETH_HLEN + 2]
    ensures var p := Pushed(Popped(frame), Tci(frame));
            && p[PROTO..PROTO + 2] == BigEndian(ETH_P_8021Q)
            && (frame[PROTO..PROTO + 2] == BigEndian(ETH_P_8021Q) ==> p == frame)
  {
    hide Word, Swap, BigEndian;
    var p := Pushed(Popped(frame), Tci(frame));
    assert p[PROTO..PROTO + 2] == BigEndian(ETH_P_8021Q);
    assert frame == frame[..PROTO] + frame[PROTO..PROTO + 2] + frame[ETH_HLEN..ETH_HLEN + 2]
                    + frame[PROTO + VLAN_HLEN..];
  }

  lemma BigEndianIsSwapped(bytes: seq<Byte>, at: nat)
    requires at + 2 <= |bytes|
    ensures BigEndian(Swap(Word(bytes, at))) == bytes[at..at + 2]
    ensures Word(bytes, at) == Swap(ETH_P_8021Q) ==> Swap(Word(bytes, at)) == ETH_P_8021Q
  {
    var lo, hi := bytes[at] as nat, bytes[at + 1] as nat;
    assert Word(bytes, at) % 256 == lo && Word(bytes, at) / 256 == hi;
    assert Swap(Word(bytes, at)) % 256 == hi && Swap(Word(bytes, at)) / 256 == lo;
  }

  /** The header moved to the new start, and the protocol taken from the tag. */
  lemma PopMoves(frame: seq<Byte>)
    requires |frame| >= ETH_HLEN + VLAN_HLEN
    ensures Put(Put(frame[VLAN_HLEN..], 0, frame[..ETH_HLEN]), PROTO, Stored(Word(frame, ETH_HLEN + 2))) ==
              Popped(frame)
  {
    StoredWord(frame, ETH_HLEN + 2);
    var r := Put(Put(frame[VLAN_HLEN..], 0, frame[..ETH_HLEN]), PROTO, frame[ETH_HLEN + 2..ETH_HLEN + 4]);
    forall i | 0 <= i < |r|
      ensures r[i] == Popped(frame)[i]
    {
    }
  }

  /** The header moved to the new start, and the tag filled in behind it. */
  lemma PushMoves(frame: seq<Byte>, wider: seq<Byte>, vlid: int)
    requires |frame| >= ETH_HLEN && |wider| == |frame| + VLAN_HLEN && wider[VLAN_HLEN..] == frame
    ensures var f1 := Put(wider, 0, frame[..ETH_HLEN]);
            var f2 := Put(f1, ETH_HLEN, Stored(Swap(Truncate(vlid))));
            var f3 := Put(f2, ETH_HLEN + 2, Stored(Word(f2, PROTO)));
            Put(f3, PROTO, Stored(Swap(ETH_P_8021Q))) == Pushed(frame, vlid)
  {
    var f1 := Put(wider, 0, frame[..ETH_HLEN]);
    var f2 := Put(f1, ETH_HLEN, BigEndian(Truncate(vlid)));
    var f3 := Put(f2, ETH_HLEN + 2, frame[PROTO..ETH_HLEN]);
    StoredSwap(Truncate(vlid));
    StoredSwap(ETH_P_8021Q);
    StoredWord(f2, PROTO);
    assert f2[PROTO..PROTO + 2] == frame[PROTO..ETH_HLEN];
    var r := Put(f3, PROTO, BigEndian(ETH_P_8021Q));
    forall i | 0 <= i < |r|
      ensures r[i] == Pushed(frame, vlid)[i]
    {
      if i >= ETH_HLEN + VLAN_HLEN {
        assert wider[i] == wider[VLAN_HLEN..][i - VLAN_HLEN];
      }
    }
  }

  /** An XDP packet: the frame lies in a buffer, with headroom before it. */
  class XdpMd {
    const buffer: array<Byte>
    var data: nat
    var dataEnd: nat

    ghost predicate Valid()
      reads this
    {
      data + ETH_HLEN <= dataEnd <= buffer.Length
    }

    ghost function Frame(): (f: seq<Byte>)
      requires Valid()
      reads this, buffer
      ensures |f| == dataEnd - data >= ETH_HLEN
    {
      buffer[data..dataEnd]
    }

    /** bpf_xdp_adjust_head: moves the start of the frame, within the buffer and
        leaving room for an Ethernet header. */
    method AdjustHead(delta: int) returns (fails: bool)
      requires Valid()
      modifies this`data
      ensures Valid() && (fails <==> !(0 <= old(data) + delta <= dataEnd - ETH_HLEN))
      ensures data == if fails then old(data) else old(data) + delta
    {
      fails := data + delta < 0 || data + delta > dataEnd - ETH_HLEN;
      if !fails {
        data := data + delta;
      }
    }

    /** Copy an Ethernet header to the start of the frame. */
    method WriteHeader(header: seq<Byte>)
      requires Valid() && |header| == ETH_HLEN
      modifies buffer
      ensures Frame() == Put(old(Frame()), 0, header)
      ensures buffer[..data] == old(buffer[..data])
    {
      forall i | 0 <= i < ETH_HLEN {
        buffer[data + i] := header[i];
      }
      assert forall i :: 0 <= i < ETH_HLEN ==> buffer[data + i] == header[i];
    }

    /** Store a 16-bit word. */
    method WriteWord(at: nat, w: nat)
      requires Valid() && at + 2 <= dataEnd - data && w < 0x10000
      modifies buffer
      ensures Frame() == Put(old(Frame()), at, Stored(w))
      ensures buffer[..data] == old(buffer[..data])
    {
      buffer[data + at], buffer[data + at + 1] := (w % 256) as Byte, (w / 256) as Byte;
    }

    /** vlan_tag_pop: removes the outermost tag and returns it, or leaves the frame alone. */
    method TagPop() returns (ret: int)
      requires Valid()
      modifies this`data, buffer
      ensures Valid()
      ensures ret >= 0 <==> Tagged(old(Frame()))
      ensures ret >= 0 ==> Frame() == Popped(old(Frame())) && ret == Tci(old(Frame()))
      ensures ret < 0 ==> ret == -1 && Frame() == old(Frame()) && data == old(data)
    {
      hide Word, Put, Stored, Pushed, Popped;
      ghost var before := Frame();
      if !ProtoIsVlan(Word(buffer[data..dataEnd], PROTO)) {
        return -1;
      }
      var vlh := data + ETH_HLEN;
      if vlh + VLAN_HLEN > dataEnd {
        return -1;
      }
      assert buffer[vlh..dataEnd] == before[ETH_HLEN..];
      WordFrom(before, ETH_HLEN, 0);
      WordFrom(before, ETH_HLEN, 2);
      var vlid := Swap(Word(buffer[vlh..dataEnd], 0));
      var hProto := Word(buffer[vlh..dataEnd], 2);
      var ethCpy := buffer[data..data + ETH_HLEN];
      assert ethCpy == before[..ETH_HLEN];
      var fails := AdjustHead(VLAN_HLEN);
      if fails {
        return -1;
      }
      if data + ETH_HLEN > dataEnd {
        return -1;
      }
      assert Frame() == before[VLAN_HLEN..];
      WriteHeader(ethCpy);
      WriteWord(PROTO, hProto);
      PopMoves(before);
      ret := vlid;
    }

    /** vlan_tag_push: puts a tag behind the addresses, or leaves the frame alone
        if there is no headroom. */
    method TagPush(vlid: int) returns (ret: int)
      requires Valid()
      modifies this`data, buffer
      ensures Valid()
      ensures ret == if old(data) >= VLAN_HLEN then 0 else -1
      ensures ret == 0 ==> Frame() == Pushed(old(Frame()), vlid)
      ensures ret == -1 ==> Frame() == old(Frame()) && data == old(data)
    {
      hide Word, Put, Stored, Pushed, Popped;
      ghost var before := Frame();
      var ethCpy := buffer[data..data + ETH_HLEN];
      assert ethCpy == before[..ETH_HLEN];
      var fails := AdjustHead(0 - VLAN_HLEN);
      if fails {
        return -1;
      }
      if data + ETH_HLEN > dataEnd {
        return -1;
      }
      ghost var wider := Frame();
      assert wider[VLAN_HLEN..] == before;
      WriteHeader(ethCpy);
      if data + ETH_HLEN + VLAN_HLEN > dataEnd {
        return -1;
      }
      WriteWord(ETH_HLEN, Swap(Truncate(vlid)));
      var hProto := Word(buffer[data..dataEnd], PROTO);
      WriteWord(ETH_HLEN + 2, hProto);
      WriteWord(PROTO, Swap(ETH_P_8021Q));
      PushMoves(before, wider, vlid);
      ret := 0;
    }
  }

  /** Tag number k of a frame, counted from the outside; its protocol field is
      the one before it. */
  function TagAt(k: nat): nat {
    ETH_HLEN + VLAN_HLEN * k
  }

  function Proto(frame: seq<Byte>, k: nat): (p: nat)
    requires TagAt(k) <= |frame|
  {
    Word(frame, TagAt(k) - 2)
  }

  function Id(frame: seq<Byte>, k: nat): (id: nat)
    requires TagAt(k + 1) <= |frame|
  {
    And(Swap(Word(frame, TagAt(k))), VLAN_VID_MASK)
  }

  /** There is a whole tag number k behind a protocol that announces it. */
  predicate HasTag(frame: seq<Byte>, k: nat) {
    TagAt(k + 1) <= |frame| && ProtoIsVlan(Proto(frame, k))
  }

  /** How many tags the parser skips. */
  ghost predicate Skips(frame: seq<Byte>, n: nat) {
    && n <= VLAN_MAX_DEPTH && (forall k: nat :: k < n ==> HasTag(frame, k))
    && (n < VLAN_MAX_DEPTH ==> !HasTag(frame, n))
  }

  /** Where a parse has got to. */
  class Cursor {
    var pos: nat
  }

  /** parse_ethhdr_vlan on a frame that starts at the cursor: skips up to two
      tags, collects their ids, and returns the protocol behind them, as it lies
      in memory. */
  method ParseEthhdrVlan(nh: Cursor, packet: seq<Byte>, vlans: array?<nat>) returns (ret: int, ghost n: nat)
    requires nh.pos <= |packet| && (vlans != null ==> vlans.Length == VLAN_MAX_DEPTH)
    modifies nh, vlans
    ensures ret == -1 <==> |packet| - old(nh.pos) < ETH_HLEN
    ensures ret == -1 ==> nh.pos == old(nh.pos) && n == 0
    ensures ret != -1 ==>
              var frame := packet[old(nh.pos)..];
              && Skips(frame, n) && TagAt(n) <= |frame| && ret == Proto(frame, n) && nh.pos == old(nh.pos) + TagAt(n)
              && (vlans != null ==> forall k: nat :: k < n ==> vlans[k] == Id(frame, k))
    ensures vlans != null ==> forall k: nat :: n <= k < VLAN_MAX_DEPTH ==> vlans[k] == old(vlans[k])
  {
    hide Word, And;
    n := 0;
    var eth := nh.pos;
    if nh.pos + ETH_HLEN > |packet| {
      return -1, 0;
    }
    nh.pos := nh.pos + ETH_HLEN;
    var vlh := nh.pos;
    ghost var frame := packet[eth..];
    WordFrom(packet, eth, PROTO);
    var hProto := Word(packet, eth + PROTO);
    for i: nat := 0 to VLAN_MAX_DEPTH
      modifies vlans
      invariant n == i && vlh == eth + TagAt(i) <= |packet| && hProto == Proto(frame, i)
      invariant forall k: nat :: k < i ==> HasTag(frame, k)
      invariant vlans != null ==> forall k: nat :: k < i ==> vlans[k] == Id(frame, k)
      invariant vlans != null ==> forall k: nat :: i <= k < VLAN_MAX_DEPTH ==> vlans[k] == old(vlans[k])
    {
      if !ProtoIsVlan(hProto) {
        break;
      }
      if vlh + VLAN_HLEN > |packet| {
        break;
      }
      WordFrom(packet, eth, TagAt(i));
      WordFrom(packet, eth, TagAt(i) + 2);
      hProto := Word(packet, vlh + 2);
      if vlans != null {
        vlans[i] := And(Swap(Word(packet, vlh)), VLAN_VID_MASK);
      }
      vlh := vlh + VLAN_HLEN;
      n := n + 1;
    }
    nh.pos := vlh;
    ret := hProto;
  }

  /** The masked id is the low 12 bits of the tag. */
  lemma MaskedId(frame: seq<Byte>, k: nat)
    requires TagAt(k + 1) <= |frame|
    ensures Id(frame, k) == Swap(Word(frame, TagAt(k))) % 0x1000
  {
    assert Pow2(4) == 16;
    Pow2Sum(4, 4);
    Pow2Sum(8, 4);
    AndMask(Swap(Word(frame, TagAt(k))), 12);
  }

  /** A pushed tag becomes tag 0 and every other tag moves in by one. */
  lemma PushedTags(frame: seq<Byte>, vlid: int, k: nat)
    requires TagAt(k) <= |frame|
    ensures var p := Pushed(frame, vlid);
            && HasTag(p, 0) && Id(p, 0) == Truncate(vlid) % 0x1000
            && Proto(p, k + 1) == Proto(frame, k)
            && (TagAt(k + 1) <= |frame| ==> Id(p, k + 1) == Id(frame, k))
            && (HasTag(p, k + 1) <==> HasTag(frame, k))
  {
    hide Word, And, Swap;
    var p := Pushed(frame, vlid);
    PopAfterPush(frame, vlid);
    MaskedId(p, 0);
    assert p[PROTO + VLAN_HLEN..] == frame[PROTO..];
    WordFrom(p, PROTO + VLAN_HLEN, TagAt(k) - 2 - PROTO);
    WordFrom(frame, PROTO, TagAt(k) - 2 - PROTO);
    if TagAt(k + 1) <= |frame| {
      WordFrom(p, PROTO + VLAN_HLEN, TagAt(k) - PROTO);
      WordFrom(frame, PROTO, TagAt(k) - PROTO);
    }
  }

  /** After a push the parser finds the same protocol 4 bytes further on, with
      the pushed id first and the others after it, exactly if it skipped at most
      one tag before: of two tags and a pushed one it skips only two. */
  lemma ParsedAfterPush(frame: seq<Byte>, vlid: int, n: nat, m: nat)
    requires |frame| >= ETH_HLEN && Skips(frame, n) && Skips(Pushed(frame, vlid), m)
    ensures m == n + 1 <==> n <= 1
    ensures n <= 1 ==>
              var p := Pushed(frame, vlid);
              && TagAt(n) <= |frame| && TagAt(m) == TagAt(n) + VLAN_HLEN && Proto(p, m) == Proto(frame, n)
              && HasTag(p, 0) && Id(p, 0) == Truncate(vlid) % 0x1000
              && forall k: nat :: k < n ==> HasTag(frame, k) && HasTag(p, k + 1) && Id(p, k + 1) == Id(frame, k)
    ensures n == 2 ==> m == 2
  {
    hide Proto, Id, Pushed;
    PushedTags(frame, vlid, 0);
    assert n > 0 ==> HasTag(frame, 0);
    if n > 0 {
      PushedTags(frame, vlid, 1);
    }
    assert m > 0 ==> HasTag(Pushed(frame, vlid), 0);
    assert m > 1 ==> HasTag(Pushed(frame, vlid), 1);
  }
}
