/** The state-update datagram (state_update_protocol.cpp). */
module StateUpdate {
  import opened Basics
  import opened Wire

  const MAGIC: u32 := 0x53535550
  const CURRENT_VERSION: u16 := 1
  const HEADER_SIZE := 52
  const MAXIMUM_PAYLOAD_SIZE := 60 * 1024

  datatype Kind = Snapshot | Delta | Heartbeat | ResyncRequest

  function KindCode(k: Kind): u16
  {
    match k
    case Snapshot => 1
    case Delta => 2
    case Heartbeat => 3
    case ResyncRequest => 4
  }

  function KindOf(code: nat): Option<Kind>
  {
    if code == 1 then Some(Snapshot)
    else if code == 2 then Some(Delta)
    else if code == 3 then Some(Heartbeat)
    else if code == 4 then Some(ResyncRequest)
    else None
  }

  datatype Update = Update(kind: Kind, session: u64, sequence: u64, timestamp: u64,
                           baseRevision: u64, revision: u64, payload: Bytes)

  datatype ParseError =
    Truncated | InvalidMagic | UnsupportedVersion | UnknownType
  | PayloadTooLarge | LengthMismatch | InvalidRevision

  datatype ParseResult = Parsed(update: Update) | Rejected(error: ParseError)

  predicate RevisionsAreValid(kind: Kind, base: u64, revision: u64)
  {
    match kind
    case Snapshot => base == 0 && revision > 0
    case Delta => revision > base
    case _ => base <= revision
  }

  /** What `create` accepts, and so what every update object satisfies. */
  predicate Valid(u: Update)
  {
    && u.session != 0 && u.sequence != 0
    && |u.payload| <= MAXIMUM_PAYLOAD_SIZE
    && RevisionsAreValid(u.kind, u.baseRevision, u.revision)
  }

  function Create(u: Update): Option<Update>
  {
    if Valid(u) then Some(u) else None
  }

  function Parse(b: Bytes): ParseResult
  {
    if |b| < HEADER_SIZE then Rejected(Truncated) else
    var kind := KindOf(Get(b, 6, 2));
    var length := Get(b, 48, 4);
    if Get(b, 0, 4) != MAGIC then Rejected(InvalidMagic)
    else if Get(b, 4, 2) != CURRENT_VERSION then Rejected(UnsupportedVersion)
    else if kind.None? then Rejected(UnknownType)
    else if length > MAXIMUM_PAYLOAD_SIZE then Rejected(PayloadTooLarge)
    else if |b| != HEADER_SIZE + length then Rejected(LengthMismatch)
    else if Get(b, 8, 8) == 0 || Get(b, 16, 8) == 0
            || !RevisionsAreValid(kind.value, Get(b, 32, 8), Get(b, 40, 8)) then Rejected(InvalidRevision)
    else Parsed(Update(kind.value, Get(b, 8, 8), Get(b, 16, 8), Get(b, 24, 8),
                       Get(b, 32, 8), Get(b, 40, 8), b[HEADER_SIZE..]))
  }

  /** The datagram as the concatenation of its fields. */
  function Encoding(u: Update): Bytes
  {
    Header(u) + Encode(|u.payload|, 4) + u.payload
  }

  function Header(u: Update): (h: Bytes)
    ensures |h| == 48
  {
    Encode(MAGIC, 4) + Encode(CURRENT_VERSION, 2) + Encode(KindCode(u.kind), 2)
    + Encode(u.session, 8) + Encode(u.sequence, 8) + Encode(u.timestamp, 8)
    + Encode(u.baseRevision, 8) + Encode(u.revision, 8)
  }

  /** The header fields of `b`, read at the offsets the source uses, are those of `u`. */
  predicate CarriesHeader(b: Bytes, u: Update)
    requires |b| >= 48
  {
    && Get(b, 0, 4) == MAGIC && Get(b, 4, 2) == CURRENT_VERSION && Get(b, 6, 2) == KindCode(u.kind)
    && Get(b, 8, 8) == u.session && Get(b, 16, 8) == u.sequence && Get(b, 24, 8) == u.timestamp
    && Get(b, 32, 8) == u.baseRevision && Get(b, 40, 8) == u.revision
  }

  lemma FieldsOfHeader(b: Bytes, u: Update)
    requires |b| >= 48 && b[..48] == Header(u)
    ensures CarriesHeader(b, u)
  {
    hide Encode, Get;
    var p4 := Encode(MAGIC, 4);
    var p6 := p4 + Encode(CURRENT_VERSION, 2);
    var p8 := p6 + Encode(KindCode(u.kind), 2);
    var p16 := p8 + Encode(u.session, 8);
    var p24 := p16 + Encode(u.sequence, 8);
    var p32 := p24 + Encode(u.timestamp, 8);
    var p40 := p32 + Encode(u.baseRevision, 8);
    FieldEnd(b, 40, p40, u.revision, 8);
    FieldEnd(b, 32, p32, u.baseRevision, 8);
    FieldEnd(b, 24, p24, u.timestamp, 8);
    FieldEnd(b, 16, p16, u.sequence, 8);
    FieldEnd(b, 8, p8, u.session, 8);
    FieldEnd(b, 6, p6, KindCode(u.kind), 2);
    FieldEnd(b, 4, p4, CURRENT_VERSION, 2);
    assert [] + p4 == p4;
    FieldEnd(b, 0, [], MAGIC, 4);
  }

  lemma ParseOfEncoding(u: Update)
    requires Valid(u)
    ensures Parse(Encoding(u)) == Parsed(u)
  {
    hide Encode, Get, Header;
    var b := Encoding(u);
    FieldEnd(b, 48, Header(u), |u.payload|, 4);
    FieldsOfHeader(b, u);
  }

  /** Where every field of the datagram is. */
  lemma Layout(u: Update)
    requires |u.payload| <= 61440
    ensures var b := Encoding(u);
      && |b| == 52 + |u.payload| && Get(b, 0, 4) == 0x53535550 && Get(b, 4, 2) == 1
      && (u.kind == Snapshot ==> Get(b, 6, 2) == 1) && (u.kind == Delta ==> Get(b, 6, 2) == 2)
      && (u.kind == Heartbeat ==> Get(b, 6, 2) == 3) && (u.kind == ResyncRequest ==> Get(b, 6, 2) == 4)
      && Get(b, 8, 8) == u.session && Get(b, 16, 8) == u.sequence && Get(b, 24, 8) == u.timestamp
      && Get(b, 32, 8) == u.baseRevision && Get(b, 40, 8) == u.revision
      && Get(b, 48, 4) == |u.payload| && b[52..] == u.payload
  {
    hide Encode, Get, Header;
    var b := Encoding(u);
    FieldEnd(b, 48, Header(u), |u.payload|, 4);
    FieldsOfHeader(b, u);
  }

  /** Which datagrams are refused: anything else is some update's encoding. */
  lemma AcceptedExactly(b: Bytes)
    ensures Parse(b).Parsed? <==>
      && |b| >= 52 && Get(b, 0, 4) == 0x53535550 && Get(b, 4, 2) == 1 && 1 <= Get(b, 6, 2) <= 4
      && |b| == 52 + Get(b, 48, 4) && Get(b, 48, 4) <= 61440 && Get(b, 8, 8) > 0 && Get(b, 16, 8) > 0
      && var code, base, revision := Get(b, 6, 2), Get(b, 32, 8), Get(b, 40, 8);
         (code == 1 ==> base == 0 && revision > 0) && (code == 2 ==> revision > base) && base <= revision
  {
    hide Get;
  }

  lemma HeaderOfFields(b: Bytes, u: Update)
    requires |b| >= 48 && CarriesHeader(b, u)
    ensures b[..48] == Header(u)
  {
    hide Encode, Get;
    FieldSplit(b, 0, 4);
    assert b[..4] == Encode(MAGIC, 4);
    FieldSplit(b, 4, 2);
    FieldSplit(b, 6, 2);
    FieldSplit(b, 8, 8);
    FieldSplit(b, 16, 8);
    FieldSplit(b, 24, 8);
    FieldSplit(b, 32, 8);
    FieldSplit(b, 40, 8);
  }

  lemma EncodingOfParse(b: Bytes)
    requires Parse(b).Parsed?
    ensures Valid(Parse(b).update) && Encoding(Parse(b).update) == b
  {
    hide Encode, Get, Header;
    HeaderOfFields(b, Parse(b).update);
    FieldSplit(b, 48, 4);
    assert b == b[..HEADER_SIZE] + b[HEADER_SIZE..];
  }

  /** `Parse` accepts exactly the datagrams of valid updates, and two updates
      never share a datagram. */
  lemma AcceptedIsImage(b: Bytes)
    ensures Parse(b).Parsed? <==> exists u :: Valid(u) && Encoding(u) == b
    ensures forall u, u' :: Valid(u) && Valid(u') && Encoding(u) == Encoding(u') ==> u == u'
  {
    if Parse(b).Parsed? {
      EncodingOfParse(b);
    }
    forall u | Valid(u)
      ensures Parse(Encoding(u)) == Parsed(u)
    {
      ParseOfEncoding(u);
    }
  }

  method Serialize(u: Update) returns (bytes: Bytes)
    requires Valid(u)
    ensures bytes == Encoding(u)
  {
    hide Encode, Header;
    var buffer := new byte[HEADER_SIZE + |u.payload|](_ => 0);
    WriteHeader(buffer, u);
    PutNext(buffer, 48, |u.payload|, 4);
    CopyBytes(buffer, HEADER_SIZE, u.payload);
    return buffer[..];
  }

  method WriteHeader(buffer: array<byte>, u: Update)
    requires buffer.Length >= HEADER_SIZE
    modifies buffer
    ensures buffer[..48] == Header(u)
  {
    hide Encode;
    PutNext(buffer, 0, MAGIC, 4);
    assert buffer[..4] == Encode(MAGIC, 4);
    PutNext(buffer, 4, CURRENT_VERSION, 2);
    PutNext(buffer, 6, KindCode(u.kind), 2);
    PutNext(buffer, 8, u.session, 8);
    PutNext(buffer, 16, u.sequence, 8);
    PutNext(buffer, 24, u.timestamp, 8);
    PutNext(buffer, 32, u.baseRevision, 8);
    PutNext(buffer, 40, u.revision, 8);
  }
}
