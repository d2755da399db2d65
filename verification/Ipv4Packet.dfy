/** IPv4 packets without options or fragments (ipv4_packet.cpp), section 3.1 of RFC 791. */
module Ipv4Packet {
  import opened Basics
  import opened Wire
  import opened InternetChecksum

  const HEADER_SIZE := 20
  const MAXIMUM_PAYLOAD_SIZE := 65535 - 20
  const VERSION_AND_LENGTH: byte := 0x45
  const DONT_FRAGMENT: u16 := 0x4000

  datatype Packet = Packet(source: u32, destination: u32, protocol: byte, payload: Bytes,
                           timeToLive: byte, identification: u16, dontFragment: bool)

  predicate Valid(p: Packet)
  {
    |p.payload| <= MAXIMUM_PAYLOAD_SIZE && p.timeToLive != 0
  }

  function Create(p: Packet): Option<Packet>
  {
    if Valid(p) then Some(p) else None
  }

  function Flags(p: Packet): u16 { if p.dontFragment then DONT_FRAGMENT else 0 }

  /** A flags word with no bit of the mask 0xBFFF set is zero or exactly "don't fragment". */
  predicate SupportedFlags(flags: nat) { flags == 0 || flags == DONT_FRAGMENT }

  function Parse(b: Bytes): (r: Option<Packet>)
    ensures r.Some? ==> Valid(r.value)
  {
    if |b| < HEADER_SIZE || b[0] != VERSION_AND_LENGTH || b[1] != 0 then None
    else if Get(b, 2, 2) != |b| || !SupportedFlags(Get(b, 6, 2)) || b[8] == 0
            || !HasValidChecksum(b[..HEADER_SIZE]) then None
    else Create(Packet(Get(b, 12, 4), Get(b, 16, 4), b[9], b[HEADER_SIZE..], b[8], Get(b, 4, 2),
                       Get(b, 6, 2) == DONT_FRAGMENT))
  }

  /** The header up to the checksum, and after it. */
  function Before(p: Packet): (h: Bytes)
    ensures |h| == 10
  {
    [VERSION_AND_LENGTH, 0] + Encode(HEADER_SIZE + |p.payload|, 2) + Encode(p.identification, 2)
    + Encode(Flags(p), 2) + [p.timeToLive, p.protocol]
  }

  function After(p: Packet): (h: Bytes)
    ensures |h| == 8
  {
    Encode(p.source, 4) + Encode(p.destination, 4)
  }

  function Header(p: Packet, checksum: u16): (h: Bytes)
    ensures |h| == HEADER_SIZE
  {
    Before(p) + Encode(checksum, 2) + After(p)
  }

  /** The checksum of the header whose checksum field is zero. */
  function HeaderChecksum(p: Packet): u16
  {
    Checksum(Header(p, 0))
  }

  function Encoding(p: Packet): Bytes
  {
    Header(p, HeaderChecksum(p)) + p.payload
  }

  // ---- Word sums of a header ----

  lemma EncodePair(c: u16)
    ensures Encode(c, 2) == [c / 256, c % 256]
  {
    hide Words;
    var high: nat := c / 256;
    assert Encode(high / 256, 0) == [];
    assert Encode(high, 1) == [] + [high % 256];
    assert Encode(c, 2) == Encode(high, 1) + [c % 256];
  }

  lemma WordOfEncoding(c: u16)
    ensures Words(Encode(c, 2)) == [c]
  {
    hide Encode;
    EncodePair(c);
    var b: Bytes := [c / 256, c % 256];
    assert Words(b[2..]) == [];
    assert Words(b) == [Word(b[0], b[1])] + Words(b[2..]);
  }

  /** The word sum of a string with one word singled out. */
  lemma SumAround(a: Bytes, c: u16, b: Bytes)
    requires |a| % 2 == 0
    ensures Sum(Words(a + Encode(c, 2) + b)) == Sum(Words(a)) + c + Sum(Words(b))
  {
    hide Words, Sum, Encode;
    WordsAppend(a + Encode(c, 2), b);
    WordsAppend(a, Encode(c, 2));
    WordOfEncoding(c);
    SumAppend(Words(a) + [c], Words(b));
    SumAppend(Words(a), [c]);
    SumOfOne(c);
  }

  lemma SumOfOne(c: u16)
    ensures Sum([c]) == c
  {
    assert Sum([c]) == c + Sum([]);
  }

  /** Every header of this version has a nonzero first word. */
  lemma FirstWord(a: Bytes)
    requires |a| >= 2 && a[0] == VERSION_AND_LENGTH && a[1] == 0
    ensures Sum(Words(a)) >= 0x4500
  {
    assert Words(a)[0] == Word(0x45, 0) == 0x4500;
  }

  /** The words of a header other than its checksum. */
  function RestSum(p: Packet): nat
  {
    Sum(Words(Before(p))) + Sum(Words(After(p)))
  }

  lemma HeaderSum(p: Packet, c: u16)
    ensures Sum(Words(Header(p, c))) == RestSum(p) + c && RestSum(p) >= 0x4500
  {
    SumAround(Before(p), c, After(p));
    FirstWord(Before(p));
  }

  // ---- Round trips ----

  lemma SerializedChecksumValid(p: Packet)
    ensures HasValidChecksum(Header(p, HeaderChecksum(p)))
  {
    hide Words, Sum, Header;
    HeaderSum(p, 0);
    HeaderSum(p, HeaderChecksum(p));
  }

  lemma BeforeFields(b: Bytes, p: Packet)
    requires |b| >= 10 && b[..10] == Before(p) && Valid(p)
    ensures b[0] == VERSION_AND_LENGTH && b[1] == 0 && b[8] == p.timeToLive && b[9] == p.protocol
    ensures Get(b, 2, 2) == HEADER_SIZE + |p.payload| && Get(b, 4, 2) == p.identification && Get(b, 6, 2) == Flags(p)
  {
    hide Encode, Get;
    var p2: Bytes := [VERSION_AND_LENGTH, 0];
    var p4 := p2 + Encode(HEADER_SIZE + |p.payload|, 2);
    var p6 := p4 + Encode(p.identification, 2);
    var p8 := p6 + Encode(Flags(p), 2);
    assert b[..8] == b[..10][..8] == p8;
    assert b[8] == b[..10][8] && b[9] == b[..10][9];
    FieldEnd(b, 6, p6, Flags(p), 2);
    FieldEnd(b, 4, p4, p.identification, 2);
    FieldEnd(b, 2, p2, HEADER_SIZE + |p.payload|, 2);
    assert b[0] == b[..2][0] && b[1] == b[..2][1];
  }

  lemma AfterFields(b: Bytes, p: Packet)
    requires |b| >= 20 && b[12..20] == After(p)
    ensures Get(b, 12, 4) == p.source && Get(b, 16, 4) == p.destination
  {
    hide Encode;
    assert b[12..16] == b[12..20][..4] == Encode(p.source, 4);
    assert b[16..20] == b[12..20][4..] == Encode(p.destination, 4);
    ValueOfEncode(p.source, 4);
    ValueOfEncode(p.destination, 4);
  }

  /** Every creatable packet parses back from its own bytes. */
  lemma ParseOfEncoding(p: Packet)
    requires Valid(p)
    ensures Parse(Encoding(p)) == Some(p)
  {
    hide HasValidChecksum, HeaderChecksum, Get, Header;
    Layout(p);
    SerializedChecksumValid(p);
    assert Encoding(p)[..20] == Header(p, HeaderChecksum(p));
  }

  /** Which strings are packets this router handles: version 4 without options, service bits
      or fragments, consistent in length, with hops to live and a good header checksum. */
  lemma AcceptedExactly(b: Bytes)
    ensures Parse(b).Some? <==>
      && |b| >= 20 && b[0] == 0x45 && b[1] == 0 && Get(b, 2, 2) == |b| && Get(b, 6, 2) in {0, 0x4000}
      && b[8] > 0 && HasValidChecksum(b[..20])
  {
    hide Get, HasValidChecksum;
    if |b| >= 20 { FieldBound(b, 2); }
  }

  lemma FieldBound(b: Bytes, off: nat)
    requires off + 2 <= |b|
    ensures Get(b, off, 2) < 65536
  {
  }

  /** Where every field of the packet is (section 3.1 of RFC 791). */
  lemma Layout(p: Packet)
    requires Valid(p)
    ensures var b := Encoding(p);
      && |b| == 20 + |p.payload| && b[0] == 0x45 && b[1] == 0 && Get(b, 2, 2) == |b|
      && Get(b, 4, 2) == p.identification && Get(b, 6, 2) == (if p.dontFragment then 0x4000 else 0)
      && b[8] == p.timeToLive && b[9] == p.protocol && Get(b, 12, 4) == p.source && Get(b, 16, 4) == p.destination
      && b[20..] == p.payload
  {
    hide Before, After, HeaderChecksum, Encode, Get;
    var b := Encoding(p);
    assert b[..10] == Before(p) && b[12..20] == After(p) && b[20..] == p.payload;
    BeforeFields(b, p);
    AfterFields(b, p);
  }

  /** The bytes of an accepted packet, field by field. */
  lemma AcceptedLayout(b: Bytes)
    requires Parse(b).Some?
    ensures var p := Parse(b).value;
      Valid(p) && b[..20] == Header(p, Get(b, 10, 2)) && b[20..] == p.payload
  {
    hide Encode, Get, HasValidChecksum;
    var p := Parse(b).value;
    FieldSplit(b, 2, 2);
    FieldSplit(b, 4, 2);
    FieldSplit(b, 6, 2);
    assert b[..2] == [VERSION_AND_LENGTH, 0];
    assert b[..10] == b[..8] + [b[8], b[9]];
    assert b[..10] == Before(p);
    FieldSplit(b, 10, 2);
    FieldSplit(b, 12, 4);
    FieldSplit(b, 16, 4);
    assert b[..20] == b[..12] + After(p);
  }

  /** A checksum field of 0xFFFF and one of 0x0000 say the same; the serializer writes zero. */
  function Normalized(checksum: u16): u16 { if checksum == 0xFFFF then 0 else checksum }

  lemma StoredChecksum(rest: nat, c: u16)
    requires rest > 0 && OnesComplement(rest + c) == 0xFFFF
    ensures 0xFFFF - OnesComplement(rest) == Normalized(c)
  {
    assert (rest + c) % 0xFFFF == 0;
    var k := (rest + c) / 0xFFFF;
    assert rest == k * 0xFFFF - c;
    if c < 0xFFFF {
      assert rest - 1 == (k - 1) * 0xFFFF + (0xFFFE - c);
    } else {
      assert rest - 1 == (k - 2) * 0xFFFF + 0xFFFE;
    }
  }

  /** Re-serializing an accepted packet gives its bytes back, except that a
      stored checksum of 0xFFFF becomes 0x0000. */
  lemma EncodingOfParse(b: Bytes)
    requires Parse(b).Some?
    ensures Encoding(Parse(b).value) == b[..10] + Encode(Normalized(Get(b, 10, 2)), 2) + b[12..]
  {
    hide Encode, Get, Before, After, Words, Sum, OnesComplement;
    AcceptedLayout(b);
    var p, c := Parse(b).value, Get(b, 10, 2);
    HeaderSum(p, c);
    HeaderSum(p, 0);
    StoredChecksum(RestSum(p), c);
    assert b == b[..20] + b[20..];
    assert b[..10] == Before(p) && b[12..] == After(p) + p.payload;
  }

  /** So re-serializing gives an accepted string back if and only if its stored checksum is not 0xFFFF. */
  lemma ReserializesExactly(b: Bytes)
    requires Parse(b).Some?
    ensures Encoding(Parse(b).value) == b <==> Get(b, 10, 2) != 0xFFFF
  {
    assert |b| >= HEADER_SIZE;
    hide Encode, Get, Encoding, Parse;
    EncodingOfParse(b);
    var c := Get(b, 10, 2);
    FieldSplit(b, 10, 2);
    assert b == b[..10] + Encode(c, 2) + b[12..];
    if Encoding(Parse(b).value) == b {
      assert Encode(Normalized(c), 2) == Encoding(Parse(b).value)[10..12] == Encode(c, 2);
      ValueOfEncode(c, 2);
      ValueOfEncode(Normalized(c), 2);
    }
  }

  /** The header 45 00 00 14 B9 EB 00 00 01 00 FF FF, followed by eight zero bytes. */
  ghost predicate AllOnesHeader(b: Bytes)
  {
    && |b| == HEADER_SIZE && b[0] == 0x45 && b[1] == 0 && b[2] == 0 && b[3] == 20 && b[4] == 0xB9 && b[5] == 0xEB
    && b[6] == 0 && b[7] == 0 && b[8] == 1 && b[9] == 0 && b[10] == 0xFF && b[11] == 0xFF
    && forall i :: 12 <= i < 20 ==> b[i] == 0
  }

  /** The failing case is real: that header is accepted and comes back different. */
  lemma AllOnesChecksumRewritten() returns (b: Bytes)
    ensures AllOnesHeader(b) && Parse(b).Some? && Encoding(Parse(b).value) != b
  {
    hide Encoding, Parse;
    b := [0x45, 0, 0, 20, 0xB9, 0xEB, 0, 0, 1, 0, 0xFF, 0xFF] + seq(8, _ => 0);
    AllOnesAccepted(b);
    ReserializesExactly(b);
  }

  lemma AllOnesAccepted(b: Bytes)
    requires AllOnesHeader(b)
    ensures Parse(b).Some? && Get(b, 10, 2) == 0xFFFF
  {
    hide Get, Words, Sum, HasValidChecksum;
    PairValue(b, 2);
    PairValue(b, 6);
    PairValue(b, 10);
    AllOnesSum(b);
    assert b[..20] == b;
  }

  lemma PairValue(b: Bytes, off: nat)
    requires off + 2 <= |b|
    ensures Get(b, off, 2) == Word(b[off], b[off + 1])
  {
    var p := b[off..off + 2];
    assert p[..1] == [b[off]] && p[..1][..0] == [];
    assert Value(p[..1]) == Value(p[..1][..0]) * 256 + p[0];
  }

  lemma NextWord(b: Bytes, k: nat)
    requires k + 2 <= |b|
    ensures Sum(Words(b[k..])) == Word(b[k], b[k + 1]) + Sum(Words(b[k + 2..]))
  {
    assert b[k..][2..] == b[k + 2..];
  }

  lemma AllOnesSum(b: Bytes)
    requires AllOnesHeader(b)
    ensures HasValidChecksum(b)
  {
    assert Sum(Words(b[20..])) == 0;
    hide Words, Sum, Value, HasValidChecksum;
    NextWord(b, 18);
    NextWord(b, 16);
    NextWord(b, 14);
    NextWord(b, 12);
    assert Sum(Words(b[12..])) == 0;
    NextWord(b, 10);
    NextWord(b, 8);
    NextWord(b, 6);
    NextWord(b, 4);
    NextWord(b, 2);
    NextWord(b, 0);
    assert b[0..] == b;
    SumIsAllOnes(b);
  }

  lemma SumIsAllOnes(b: Bytes)
    requires b != [] && Sum(Words(b)) == 0x1FFFE
    ensures HasValidChecksum(b)
  {
    hide Words, Sum;
    Residue(0x1FFFE, 1, 0xFFFF);
  }

  // ---- Error detection ----

  /** `b'` is `b` with the 16-bit word at byte `2 * i` replaced. */
  ghost predicate ChangesWord(b: Bytes, b': Bytes, i: nat)
  {
    && 2 * i + 2 <= |b| == |b'|
    && b'[..2 * i] == b[..2 * i] && b'[2 * i + 2..] == b[2 * i + 2..]
    && Get(b', 2 * i, 2) != Get(b, 2 * i, 2)
  }

  lemma SumAtWord(h: Bytes, i: nat)
    requires 2 * i + 2 <= |h|
    ensures Sum(Words(h)) == Sum(Words(h[..2 * i])) + Get(h, 2 * i, 2) + Sum(Words(h[2 * i + 2..]))
  {
    hide Encode, Get, Words, Sum;
    FieldSplit(h, 2 * i, 2);
    assert h == h[..2 * i + 2] + h[2 * i + 2..];
    SumAround(h[..2 * i], Get(h, 2 * i, 2), h[2 * i + 2..]);
  }

  lemma GetTake(b: Bytes, n: nat, off: nat, w: nat)
    requires off + w <= n <= |b|
    ensures Get(b[..n], off, w) == Get(b, off, w)
  {
    assert b[..n][off..off + w] == b[off..off + w];
  }

  /** Changing exactly one header word of an accepted packet is caught by the
      checksum if and only if it does not swap 0x0000 and 0xFFFF. */
  lemma OneWordChecksum(b: Bytes, b': Bytes, i: nat)
    requires Parse(b).Some? && i < 10 && ChangesWord(b, b', i)
    ensures HasValidChecksum(b'[..20]) <==> {Get(b, 2 * i, 2), Get(b', 2 * i, 2)} == {0, 0xFFFF}
  {
    hide Get, Words, Sum, OnesComplement;
    var h, h' := b[..20], b'[..20];
    var w: u16, w': u16 := Get(b, 2 * i, 2), Get(b', 2 * i, 2);
    GetTake(b, 20, 2 * i, 2);
    GetTake(b', 20, 2 * i, 2);
    SumAtWord(h, i);
    SumAtWord(h', i);
    assert h'[..2 * i] == h[..2 * i] by { assert h'[..2 * i] == b'[..2 * i] && h[..2 * i] == b[..2 * i]; }
    assert h'[2 * i + 2..] == h[2 * i + 2..] by {
      assert h'[2 * i + 2..] == b'[2 * i + 2..][..18 - 2 * i] && h[2 * i + 2..] == b[2 * i + 2..][..18 - 2 * i];
    }
    var rest := Sum(Words(h[..2 * i])) + Sum(Words(h[2 * i + 2..]));
    assert OnesComplement(rest + w) == 0xFFFF;
    RestPositive(h, i, rest, w);
    OneWordChange(rest, w, w');
  }

  /** Whether the packet with one header word changed is still accepted: exactly when
      the change swaps 0x0000 and 0xFFFF in the identification, the checksum or an
      address.  Everywhere else another test of the parser catches the swap. */
  lemma OneWordErrorDetected(b: Bytes, b': Bytes, i: nat)
    requires Parse(b).Some? && i < 10 && ChangesWord(b, b', i)
    ensures Parse(b').Some? <==> {Get(b, 2 * i, 2), Get(b', 2 * i, 2)} == {0, 0xFFFF} && i in {2, 5, 6, 7, 8, 9}
  {
    OneWordChecksum(b, b', i);
    PairValue(b, 2 * i);
    PairValue(b', 2 * i);
    hide HasValidChecksum, Get;
    OtherFields(b, b', i);
    if {Get(b, 2 * i, 2), Get(b', 2 * i, 2)} == {0, 0xFFFF} {
      assert Get(b, 2 * i, 2) in {0, 0xFFFF} && Get(b', 2 * i, 2) in {0, 0xFFFF};
    }
  }

  /** Such a change exists: the checksum word of a concrete header. */
  lemma UndetectedChange() returns (b: Bytes, b': Bytes)
    ensures ChangesWord(b, b', 5) && Parse(b).Some? && Parse(b').Some?
  {
    b := AllOnesChecksumRewritten();
    b' := b[..10] + [0, 0] + b[12..];
    hide Parse, Get, Encoding;
    PairValue(b, 10);
    PairValue(b', 10);
    OneWordErrorDetected(b, b', 5);
  }

  lemma OtherFields(b: Bytes, b': Bytes, i: nat)
    requires |b| >= 20 && i < 10 && ChangesWord(b, b', i)
    ensures i != 0 ==> b'[0] == b[0] && b'[1] == b[1]
    ensures i != 1 ==> Get(b', 2, 2) == Get(b, 2, 2)
    ensures i != 3 ==> Get(b', 6, 2) == Get(b, 6, 2)
    ensures i != 4 ==> b'[8] == b[8]
  {
    forall j | 0 <= j < |b| && j / 2 != i ensures b'[j] == b[j] {
      if j < 2 * i { assert b'[..2 * i][j] == b[..2 * i][j]; }
      else { assert b'[2 * i + 2..][j - 2 * i - 2] == b[2 * i + 2..][j - 2 * i - 2]; }
    }
    assert i != 1 ==> b'[2..4] == b[2..4];
    assert i != 3 ==> b'[6..8] == b[6..8];
  }

  lemma RestPositive(h: Bytes, i: nat, rest: nat, w: u16)
    requires |h| == 20 && h[0] == VERSION_AND_LENGTH && h[1] == 0 && i < 10
    requires w == Get(h, 2 * i, 2) && OnesComplement(rest + w) == 0xFFFF
    requires rest == Sum(Words(h[..2 * i])) + Sum(Words(h[2 * i + 2..]))
    ensures rest > 0
  {
    if i == 0 {
      assert w == 0x4500 by {
        assert h[0..2] == [0x45, 0];
        assert Value([0x45, 0]) == Value([0x45]) * 256 + 0 by { assert [0x45, 0][..1] == [0x45]; }
        assert Value([0x45]) == Value([]) * 256 + 0x45 by { assert [0x45][..0] == []; }
      }
      assert OnesComplement(0x4500) == 0x4500;
    } else {
      FirstWord(h[..2 * i]);
    }
  }

  // ---- Serialization in place ----

  /** The slices of a finished header, put together. */
  lemma HeaderFromSlices(h: Bytes, p: Packet)
    requires |h| >= 20
    requires h[0..2] == [VERSION_AND_LENGTH, 0] && h[2..4] == Encode(HEADER_SIZE + |p.payload|, 2)
    requires h[4..6] == Encode(p.identification, 2) && h[6..8] == Encode(Flags(p), 2)
    requires h[8..10] == [p.timeToLive, p.protocol] && h[10..12] == Encode(0, 2)
    requires h[12..16] == Encode(p.source, 4) && h[16..20] == Encode(p.destination, 4)
    ensures h[..20] == Header(p, 0)
  {
    hide Encode;
    Joined(h, 0, 2, 4);
    Joined(h, 0, 4, 6);
    Joined(h, 0, 6, 8);
    Joined(h, 0, 8, 10);
    Joined(h, 0, 10, 12);
    Joined(h, 12, 16, 20);
    Joined(h, 0, 12, 20);
    assert h[..20] == h[0..20];
  }

  /** Writes every header field except the checksum, in the source's order. */
  method WriteFields(buffer: array<byte>, p: Packet)
    requires buffer.Length >= HEADER_SIZE && buffer[10] == buffer[11] == 0
    modifies buffer
    ensures buffer[..HEADER_SIZE] == Header(p, 0)
  {
    hide Encode, Header;
    buffer[0], buffer[1] := VERSION_AND_LENGTH, 0;
    buffer[8], buffer[9] := p.timeToLive, p.protocol;
    EncodePair(0);
    ghost var h := buffer[..];
    assert h[0..2] == [VERSION_AND_LENGTH, 0] && h[8..10] == [p.timeToLive, p.protocol] && h[10..12] == [0, 0];
    PutAt(buffer, 2, HEADER_SIZE + |p.payload|, 2);
    PutAt(buffer, 4, p.identification, 2);
    PutAt(buffer, 6, Flags(p), 2);
    PutAt(buffer, 12, p.source, 4);
    PutAt(buffer, 16, p.destination, 4);
    HeaderFromSlices(buffer[..], p);
    assert buffer[..HEADER_SIZE] == buffer[..][..HEADER_SIZE];
  }

  lemma ChecksumInserted(h: Bytes, h': Bytes, p: Packet, checksum: u16)
    requires |h| >= 20 && |h'| >= 20 && h[..20] == Header(p, 0)
    requires h'[0..10] == h[0..10] && h'[10..12] == Encode(checksum, 2) && h'[12..20] == h[12..20]
    ensures h'[..20] == Header(p, checksum)
  {
    hide Encode, Before, After;
    assert h[0..10] == h[..20][..10] == Before(p) && h[12..20] == h[..20][12..] == After(p);
    Joined(h', 0, 10, 12);
    Joined(h', 0, 12, 20);
    assert h'[..20] == h'[0..20];
  }

  method Serialize(p: Packet) returns (bytes: Bytes)
    requires Valid(p)
    ensures bytes == Encoding(p)
  {
    hide Encode, Before, After, Checksum;
    var buffer := new byte[HEADER_SIZE + |p.payload|](_ => 0);
    WriteFields(buffer, p);
    ghost var h := buffer[..];
    var checksum := ComputeInternetChecksum(buffer[..HEADER_SIZE]);
    assert checksum == HeaderChecksum(p);
    PutAt(buffer, 10, checksum, 2);
    assert h[..20] == Header(p, 0) && buffer[..][0..10] == h[0..10] && buffer[..][12..20] == h[12..20];
    ChecksumInserted(h, buffer[..], p, checksum);
    assert buffer[..20] == buffer[..][..20];
    CopyBytes(buffer, HEADER_SIZE, p.payload);
    assert buffer[..] == buffer[..HEADER_SIZE + |p.payload|];
    return buffer[..];
  }
}
