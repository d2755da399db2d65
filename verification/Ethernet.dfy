/** Ethernet frames with an optional 802.1Q tag (ethernet_frame.cpp,
    vlan_tag.hpp, mac_address.hpp), clause 9.6 of IEEE 802.1Q. */
module Ethernet {
  import opened Basics
  import opened Wire

  type Mac = m: Bytes | |m| == 6 witness [0, 0, 0, 0, 0, 0]
  type VlanId = v: int | 1 <= v <= 4094 witness 1
  type Priority = p: int | 0 <= p <= 7

  const UNSPECIFIED_MAC: Mac := [0, 0, 0, 0, 0, 0]
  const BROADCAST_MAC: Mac := [0xFF, 0xFF, 0xFF, 0xFF, 0xFF, 0xFF]

  predicate IsMulticast(m: Mac) { m[0] % 2 == 1 }

  /** The addresses that may be learned, cached or used as a source. */
  predicate IsStation(m: Mac) { m != UNSPECIFIED_MAC && !IsMulticast(m) }

  lemma StationExactly(m: Mac)
    ensures IsStation(m) <==> m[0] % 2 == 0 && m != [0, 0, 0, 0, 0, 0]
  {
  }

  const ETHERTYPE_IPV4: u16 := 0x0800
  const ETHERTYPE_ARP: u16 := 0x0806
  const ETHERTYPE_VLAN: u16 := 0x8100

  // ---- Tag control information ----

  datatype VlanTag = VlanTag(vlan: VlanId, priority: Priority, dropEligible: bool)

  function TagToTci(t: VlanTag): u16
  {
    t.priority * 0x2000 + (if t.dropEligible then 0x1000 else 0) + t.vlan
  }

  function TciToTag(v: u16): Option<VlanTag>
  {
    if v % 0x1000 < 1 || v % 0x1000 > 4094 then None
    else Some(VlanTag(v % 0x1000, v / 0x2000, v / 0x1000 % 2 == 1))
  }

  /** Tags and the tag words with a usable VLAN number correspond one to one. */
  lemma TciBijection(t: VlanTag, v: u16)
    ensures TciToTag(TagToTci(t)) == Some(t)
    ensures TciToTag(v).Some? ==> TagToTci(TciToTag(v).value) == v
    ensures TciToTag(v).None? <==> v % 0x1000 in {0, 0xFFF}
  {
    TagRoundTrip(t);
  }

  lemma TagRoundTrip(t: VlanTag)
    ensures TciToTag(TagToTci(t)) == Some(t)
  {
    var flag := if t.dropEligible then 1 else 0;
    var v := (t.priority * 2 + flag) * 0x1000 + t.vlan;
    assert v / 0x1000 == t.priority * 2 + flag && v % 0x1000 == t.vlan;
    assert v / 0x2000 == v / 0x1000 / 2;
  }

  // ---- Frames ----

  const HEADER_SIZE := 14
  const TAGGED_HEADER_SIZE := 18
  const MAXIMUM_PAYLOAD_SIZE := 1500

  datatype Frame = Frame(destination: Mac, source: Mac, etherType: u16, payload: Bytes, tag: Option<VlanTag>)

  predicate Valid(f: Frame)
  {
    |f.payload| <= MAXIMUM_PAYLOAD_SIZE
  }

  function Create(f: Frame): Option<Frame>
  {
    if Valid(f) then Some(f) else None
  }

  function Parse(b: Bytes): Option<Frame>
  {
    if |b| < HEADER_SIZE then None
    else if Get(b, 12, 2) != ETHERTYPE_VLAN then
      Create(Frame(b[0..6], b[6..12], Get(b, 12, 2), b[HEADER_SIZE..], None))
    else if |b| < TAGGED_HEADER_SIZE || TciToTag(Get(b, 14, 2)).None? then None
    else Create(Frame(b[0..6], b[6..12], Get(b, 16, 2), b[TAGGED_HEADER_SIZE..], TciToTag(Get(b, 14, 2))))
  }

  lemma ParsedValid(b: Bytes)
    ensures Parse(b).Some? ==> Valid(Parse(b).value)
  {
  }

  function Encoding(f: Frame): Bytes
  {
    match f.tag
    case None => f.destination + f.source + Encode(f.etherType, 2) + f.payload
    case Some(tag) =>
      f.destination + f.source + Encode(ETHERTYPE_VLAN, 2) + Encode(TagToTci(tag), 2)
      + Encode(f.etherType, 2) + f.payload
  }

  /** An untagged frame whose own EtherType is the tag marker reads back as a
      tagged one or not at all. */
  predicate Ambiguous(f: Frame)
  {
    f.tag.None? && f.etherType == ETHERTYPE_VLAN
  }

  lemma AddressFields(b: Bytes, destination: Mac, source: Mac)
    requires |b| >= 12 && b[..12] == destination + source
    ensures b[0..6] == destination && b[6..12] == source
  {
    assert b[0..6] == b[..12][..6] && b[6..12] == b[..12][6..];
  }

  lemma UntaggedFields(f: Frame)
    requires f.tag.None?
    ensures var b := Encoding(f);
      && |b| >= 14 && b[0..6] == f.destination && b[6..12] == f.source
      && Get(b, 12, 2) == f.etherType && b[14..] == f.payload
  {
    hide Encode, Get;
    var b := Encoding(f);
    FieldEnd(b, 12, f.destination + f.source, f.etherType, 2);
    AddressFields(b, f.destination, f.source);
  }

  lemma TaggedFields(f: Frame)
    requires f.tag.Some?
    ensures var b := Encoding(f);
      && |b| >= 18 && b[0..6] == f.destination && b[6..12] == f.source
      && Get(b, 12, 2) == ETHERTYPE_VLAN && Get(b, 14, 2) == TagToTci(f.tag.value)
      && Get(b, 16, 2) == f.etherType && b[18..] == f.payload
  {
    hide Encode, Get, TagToTci;
    var b := Encoding(f);
    var p12 := f.destination + f.source;
    var p14 := p12 + Encode(ETHERTYPE_VLAN, 2);
    var p16 := p14 + Encode(TagToTci(f.tag.value), 2);
    FieldEnd(b, 16, p16, f.etherType, 2);
    FieldEnd(b, 14, p14, TagToTci(f.tag.value), 2);
    FieldEnd(b, 12, p12, ETHERTYPE_VLAN, 2);
    AddressFields(b, f.destination, f.source);
  }

  /** Which strings are frames: long enough, a payload of at most 1500 bytes, and after
      the tag marker a usable VLAN number. */
  lemma AcceptedExactly(b: Bytes)
    ensures Parse(b).Some? <==>
      && |b| >= 14
      && if Get(b, 12, 2) != 0x8100 then |b| <= 1514
         else 18 <= |b| <= 1518 && 1 <= Get(b, 14, 2) % 4096 <= 4094
  {
    hide Get;
  }

  /** Where every field of the frame is (clause 9.6 of IEEE 802.1Q). */
  lemma Layout(f: Frame)
    ensures var b := Encoding(f);
      && |b| == |f.payload| + (if f.tag.None? then 14 else 18)
      && b[0..6] == f.destination && b[6..12] == f.source
      && (f.tag.None? ==> Get(b, 12, 2) == f.etherType && b[14..] == f.payload)
      && (f.tag.Some? ==>
            && Get(b, 12, 2) == 0x8100 && Get(b, 16, 2) == f.etherType && b[18..] == f.payload
            && var tag := f.tag.value;
               Get(b, 14, 2) == tag.priority * 8192 + (if tag.dropEligible then 4096 else 0) + tag.vlan)
  {
    hide Get, Encode;
    if f.tag.None? { UntaggedFields(f); } else { TaggedFields(f); }
  }

  /** A frame survives serialization and parsing if and only if it is not ambiguous. */
  lemma FrameRoundTrip(f: Frame)
    requires Valid(f)
    ensures Parse(Encoding(f)) == Some(f) <==> !Ambiguous(f)
  {
    hide Encode, Get, Encoding, TagToTci, TciToTag;
    match f.tag
    case None => UntaggedFields(f);
    case Some(tag) =>
      TaggedFields(f);
      TciBijection(tag, 0);
  }

  /** A concrete frame that does not survive. */
  lemma AmbiguousFrameLost()
    ensures var f := Frame(BROADCAST_MAC, UNSPECIFIED_MAC, ETHERTYPE_VLAN, [], None);
      Valid(f) && Parse(Encoding(f)) == None
  {
    hide Encode, Get;
    UntaggedFields(Frame(BROADCAST_MAC, UNSPECIFIED_MAC, ETHERTYPE_VLAN, [], None));
  }

  /** Every accepted byte string is the serialization of what it parses to. */
  lemma EncodingOfParse(b: Bytes)
    requires Parse(b).Some?
    ensures Valid(Parse(b).value) && Encoding(Parse(b).value) == b && !Ambiguous(Parse(b).value)
  {
    hide Encode, Get, TagToTci, TciToTag;
    var f := Parse(b).value;
    FieldSplit(b, 12, 2);
    assert b[..12] == f.destination + f.source;
    if f.tag.Some? {
      FieldSplit(b, 14, 2);
      FieldSplit(b, 16, 2);
      TciBijection(f.tag.value, Get(b, 14, 2));
      assert b == b[..18] + b[18..];
    } else {
      assert b == b[..14] + b[14..];
    }
  }

  /** The frame buffer, filled in place. */
  method Serialize(f: Frame) returns (bytes: Bytes)
    ensures bytes == Encoding(f)
  {
    hide Encode, TagToTci;
    var headerSize := if f.tag.Some? then TAGGED_HEADER_SIZE else HEADER_SIZE;
    var buffer := new byte[headerSize + |f.payload|](_ => 0);
    CopyBytes(buffer, 0, f.destination);
    assert buffer[..6] == f.destination;
    CopyBytes(buffer, 6, f.source);
    PutNext(buffer, 12, if f.tag.Some? then ETHERTYPE_VLAN else f.etherType, 2);
    if f.tag.Some? {
      PutNext(buffer, 14, TagToTci(f.tag.value), 2);
      PutNext(buffer, 16, f.etherType, 2);
    }
    CopyBytes(buffer, headerSize, f.payload);
    return buffer[..];
  }
}
