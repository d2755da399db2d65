/** ARP over Ethernet for IPv4 (arp_packet.cpp), RFC 826. */
module ArpPacket {
  import opened Basics
  import opened Wire
  import opened Ethernet

  const SERIALIZED_SIZE := 28

  datatype Packet =
    | Request(senderMac: Mac, senderIp: u32, targetIp: u32)
    | Reply(senderMac: Mac, senderIp: u32, targetMac: Mac, targetIp: u32)

  /** What `create_request` and `create_reply` accept. */
  predicate Valid(a: Packet)
  {
    IsStation(a.senderMac) && (a.Reply? ==> IsStation(a.targetMac))
  }

  function Create(a: Packet): Option<Packet>
  {
    if Valid(a) then Some(a) else None
  }

  function TargetMac(a: Packet): Mac
  {
    if a.Reply? then a.targetMac else UNSPECIFIED_MAC
  }

  function Parse(b: Bytes): Option<Packet>
  {
    if |b| != SERIALIZED_SIZE then None
    else if Get(b, 0, 2) != 1 || Get(b, 2, 2) != ETHERTYPE_IPV4 || b[4] != 6 || b[5] != 4 then None
    else if Get(b, 6, 2) == 1 then
      if b[18..24] != UNSPECIFIED_MAC then None
      else Create(Request(b[8..14], Get(b, 14, 4), Get(b, 24, 4)))
    else if Get(b, 6, 2) == 2 then
      Create(Reply(b[8..14], Get(b, 14, 4), b[18..24], Get(b, 24, 4)))
    else None
  }

  function Preamble(a: Packet): (h: Bytes)
    ensures |h| == 8
  {
    Encode(1, 2) + Encode(ETHERTYPE_IPV4, 2) + [6, 4] + Encode(if a.Request? then 1 else 2, 2)
  }

  function Encoding(a: Packet): Bytes
  {
    Preamble(a) + a.senderMac + Encode(a.senderIp, 4) + TargetMac(a) + Encode(a.targetIp, 4)
  }

  lemma PreambleFields(b: Bytes, a: Packet)
    requires |b| >= 8 && b[..8] == Preamble(a)
    ensures Get(b, 0, 2) == 1 && Get(b, 2, 2) == ETHERTYPE_IPV4 && b[4] == 6 && b[5] == 4
    ensures Get(b, 6, 2) == if a.Request? then 1 else 2
  {
    hide Encode, Get;
    var p2 := Encode(1, 2);
    var p4 := p2 + Encode(ETHERTYPE_IPV4, 2);
    var p6 := p4 + [6, 4];
    FieldEnd(b, 6, p6, if a.Request? then 1 else 2, 2);
    assert b[4] == b[..6][4] && b[5] == b[..6][5];
    assert b[..4] == b[..6][..4] == p4;
    FieldEnd(b, 2, p2, ETHERTYPE_IPV4, 2);
    assert [] + p2 == p2;
    FieldEnd(b, 0, [], 1, 2);
  }

  /** Where every field of the 28-byte packet is (RFC 826). */
  lemma Layout(a: Packet)
    ensures var b := Encoding(a);
      && |b| == 28 && Get(b, 0, 2) == 1 && Get(b, 2, 2) == 0x0800 && b[4] == 6 && b[5] == 4
      && Get(b, 6, 2) == (if a.Request? then 1 else 2)
      && b[8..14] == a.senderMac && Get(b, 14, 4) == a.senderIp
      && b[18..24] == (if a.Request? then [0, 0, 0, 0, 0, 0] else a.targetMac) && Get(b, 24, 4) == a.targetIp
  {
    hide Encode, Get, Preamble;
    var b := Encoding(a);
    var p14 := Preamble(a) + a.senderMac;
    var p18 := p14 + Encode(a.senderIp, 4);
    var p24 := p18 + TargetMac(a);
    FieldEnd(b, 24, p24, a.targetIp, 4);
    assert b[18..24] == b[..24][18..] == TargetMac(a);
    assert b[..18] == b[..24][..18] == p18;
    FieldEnd(b, 14, p14, a.senderIp, 4);
    assert b[8..14] == b[..14][8..] == a.senderMac;
    assert b[..8] == b[..14][..8];
    PreambleFields(b, a);
  }

  /** Which strings are ARP packets: Ethernet and IPv4, from a station, either a request
      that leaves the target address blank or a reply to a station. */
  lemma AcceptedExactly(b: Bytes)
    ensures Parse(b).Some? <==>
      && |b| == 28 && Get(b, 0, 2) == 1 && Get(b, 2, 2) == 0x0800 && b[4] == 6 && b[5] == 4 && IsStation(b[8..14])
      && (|| (Get(b, 6, 2) == 1 && b[18..24] == [0, 0, 0, 0, 0, 0])
          || (Get(b, 6, 2) == 2 && IsStation(b[18..24])))
  {
    hide Get, IsStation;
  }

  lemma ParseOfEncoding(a: Packet)
    requires Valid(a)
    ensures Parse(Encoding(a)) == Some(a)
  {
    hide Encoding, Get, IsStation;
    Layout(a);
  }

  lemma EncodingOfParse(b: Bytes)
    requires Parse(b).Some?
    ensures Valid(Parse(b).value) && Encoding(Parse(b).value) == b
  {
    hide Encode, Get, IsStation;
    var a := Parse(b).value;
    FieldSplit(b, 0, 2);
    assert b[..2] == Encode(1, 2);
    FieldSplit(b, 2, 2);
    assert b[..6] == b[..4] + [6, 4];
    FieldSplit(b, 6, 2);
    assert b[..8] == Preamble(a);
    assert b[..14] == b[..8] + b[8..14];
    FieldSplit(b, 14, 4);
    assert b[..24] == b[..18] + b[18..24];
    FieldSplit(b, 24, 4);
    assert b[..28] == b;
  }

  /** `Parse` accepts exactly the encodings of valid packets. */
  lemma AcceptedIsImage(b: Bytes)
    ensures Parse(b).Some? <==> exists a :: Valid(a) && Encoding(a) == b
  {
    hide Encoding, Parse, Valid;
    if Parse(b).Some? {
      EncodingOfParse(b);
    }
    forall a | Valid(a) && Encoding(a) == b ensures Parse(b).Some? {
      ParseOfEncoding(a);
    }
  }

  lemma EncodingFromSlices(b: Bytes, a: Packet)
    requires |b| == SERIALIZED_SIZE
    requires b[0..2] == Encode(1, 2) && b[2..4] == Encode(ETHERTYPE_IPV4, 2) && b[4..5] == [6] && b[5..6] == [4]
    requires b[6..8] == Encode(if a.Request? then 1 else 2, 2) && b[8..14] == a.senderMac
    requires b[14..18] == Encode(a.senderIp, 4) && b[18..24] == TargetMac(a) && b[24..28] == Encode(a.targetIp, 4)
    ensures b == Encoding(a)
  {
  }

  method WriteIntegers(buffer: array<byte>, a: Packet)
    requires buffer.Length == SERIALIZED_SIZE
    modifies buffer
    ensures buffer[..][0..2] == Encode(1, 2) && buffer[..][2..4] == Encode(ETHERTYPE_IPV4, 2)
    ensures buffer[..][6..8] == Encode(if a.Request? then 1 else 2, 2)
    ensures buffer[..][14..18] == Encode(a.senderIp, 4) && buffer[..][24..28] == Encode(a.targetIp, 4)
  {
    hide Encode;
    PutAt(buffer, 0, 1, 2);
    PutAt(buffer, 2, ETHERTYPE_IPV4, 2);
    PutAt(buffer, 6, if a.Request? then 1 else 2, 2);
    PutAt(buffer, 14, a.senderIp, 4);
    PutAt(buffer, 24, a.targetIp, 4);
  }

  /** The source writes the integer fields first and the addresses last. */
  method Serialize(a: Packet) returns (bytes: Bytes)
    ensures bytes == Encoding(a)
  {
    hide Encode, Encoding;
    var buffer := new byte[SERIALIZED_SIZE](_ => 0);
    WriteIntegers(buffer, a);
    CopyAt(buffer, 4, [6]);
    CopyAt(buffer, 5, [4]);
    CopyAt(buffer, 8, a.senderMac);
    CopyAt(buffer, 18, TargetMac(a));
    EncodingFromSlices(buffer[..], a);
    return buffer[..];
  }
}
