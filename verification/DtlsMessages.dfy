/**
 Handshake messages and their fragments on the wire (section 4.2.2 of RFC 6347): the twelve-octet
 header, writing and parsing fragments, and finishing a message by copying its length.
 */
module DtlsMessages {
  import opened Bytes

  const DTLS1_HM_HEADER_LENGTH := 12
  const SSL_MAX_HANDSHAKE_FLIGHT := 7
  const U8 := 0x100
  const U16 := 0x1_0000
  const U24 := 0x100_0000

  datatype Header = Header(kind: nat, msgLen: nat, seqNum: nat, fragOff: nat, fragLen: nat)

  // The fields have the widths they have on the wire.
  predicate Fits(h: Header) {
    h.kind < U8 && h.msgLen < U24 && h.seqNum < U16 && h.fragOff < U24 && h.fragLen < U24
  }

  datatype Fragment = Fragment(h: Header, body: seq<byte>)

  predicate WellFormed(f: Fragment) {
    Fits(f.h) && |f.body| == f.h.fragLen
  }

  // ---------------------------------------------------------------- big-endian fields

  function BE16(x: nat): (b: seq<byte>)
    ensures |b| == 2
  {
    [x / 256 % 256, x % 256]
  }

  function BE24(x: nat): (b: seq<byte>)
    ensures |b| == 3
  {
    [x / 65536 % 256, x / 256 % 256, x % 256]
  }

  function ReadBE16(b: seq<byte>, at: nat): (x: nat)
    requires at + 2 <= |b|
    ensures x < U16
  {
    var high: int, low: int := b[at], b[at + 1];
    high * 256 + low
  }

  function ReadBE24(b: seq<byte>, at: nat): (x: nat)
    requires at + 3 <= |b|
    ensures x < U24
  {
    var high: int, middle: int, low: int := b[at], b[at + 1], b[at + 2];
    high * 65536 + middle * 256 + low
  }

  // ---------------------------------------------------------------- fragments

  function EncodeHeader(h: Header): (b: seq<byte>)
    ensures |b| == DTLS1_HM_HEADER_LENGTH
  {
    [h.kind % 256] + BE24(h.msgLen) + BE16(h.seqNum) + BE24(h.fragOff) + BE24(h.fragLen)
  }

  function Encode(f: Fragment): (b: seq<byte>)
    ensures |b| == DTLS1_HM_HEADER_LENGTH + |f.body|
  {
    EncodeHeader(f.h) + f.body
  }

  function ReadHeader(b: seq<byte>): (h: Header)
    requires DTLS1_HM_HEADER_LENGTH <= |b|
    ensures Fits(h)
  {
    Header(b[0], ReadBE24(b, 1), ReadBE16(b, 4), ReadBE24(b, 6), ReadBE24(b, 9))
  }

  datatype Parsed = Parsed(fragment: Fragment, rest: seq<byte>)

  // dtls1_parse_fragment: a header and as many octets of body as it announces, if they are there.
  function ParseFragment(b: seq<byte>): (p: Option<Parsed>)
    ensures p.Some? ==> WellFormed(p.value.fragment) && |p.value.rest| < |b|
  {
    if |b| < DTLS1_HM_HEADER_LENGTH then None
    else
      var h := ReadHeader(b);
      var end := DTLS1_HM_HEADER_LENGTH + h.fragLen;
      if |b| < end then None
      else Some(Parsed(Fragment(h, b[DTLS1_HM_HEADER_LENGTH..end]), b[end..]))
  }

  lemma HeaderRoundTrip(h: Header, rest: seq<byte>)
    requires Fits(h)
    ensures ReadHeader(EncodeHeader(h) + rest) == h
  {
    var b := EncodeHeader(h) + rest;
    assert b[0] == h.kind;
    Digits(h.msgLen);
    Digits(h.fragOff);
    Digits(h.fragLen);
    assert b[1] == BE24(h.msgLen)[0] && b[2] == BE24(h.msgLen)[1] && b[3] == BE24(h.msgLen)[2];
    assert b[4] == BE16(h.seqNum)[0] && b[5] == BE16(h.seqNum)[1];
    assert b[6] == BE24(h.fragOff)[0] && b[7] == BE24(h.fragOff)[1] && b[8] == BE24(h.fragOff)[2];
    assert b[9] == BE24(h.fragLen)[0] && b[10] == BE24(h.fragLen)[1] && b[11] == BE24(h.fragLen)[2];
  }

  lemma Digits(x: nat)
    requires x < U24
    ensures x / 65536 % 256 * 65536 + x / 256 % 256 * 256 + x % 256 == x
  {
  }

  // The fields are numbers in network order (section 4.2.2 of RFC 6347), when read and when written.
  lemma FieldsAreBigEndian(b: seq<byte>)
    requires DTLS1_HM_HEADER_LENGTH <= |b|
    ensures ReadHeader(b)
            == Header(b[0], BigEndian(b[1..4]), BigEndian(b[4..6]), BigEndian(b[6..9]), BigEndian(b[9..12]))
  {
    ThreeOctets(b, 1);
    TwoOctets(b, 4);
    ThreeOctets(b, 6);
    ThreeOctets(b, 9);
  }

  lemma {:induction false} TwoOctets(b: seq<byte>, at: nat)
    requires at + 2 <= |b|
    ensures ReadBE16(b, at) == BigEndian(b[at..at + 2])
  {
    var s := b[at..at + 2];
    assert s[..1][..0] == [] && BigEndian(s[..1]) == b[at];
  }

  lemma {:induction false} ThreeOctets(b: seq<byte>, at: nat)
    requires at + 3 <= |b|
    ensures ReadBE24(b, at) == BigEndian(b[at..at + 3])
  {
    TwoOctets(b, at);
    assert b[at..at + 3][..2] == b[at..at + 2];
  }

  lemma WireForm(f: Fragment)
    requires WellFormed(f)
    ensures var b := Encode(f);
            && b[0] == f.h.kind && BigEndian(b[1..4]) == f.h.msgLen && BigEndian(b[4..6]) == f.h.seqNum
            && BigEndian(b[6..9]) == f.h.fragOff && BigEndian(b[9..12]) == f.h.fragLen && b[12..] == f.body
  {
    hide EncodeHeader, BigEndian, ReadHeader;
    HeaderRoundTrip(f.h, f.body);
    FieldsAreBigEndian(Encode(f));
  }

  // The empty message of type 1 with number 1.
  lemma EmptyMessageOctets()
    ensures Finished(Message(1, []), 1) == [1, 0, 0, 0, 0, 1, 0, 0, 0, 0, 0, 0]
  {
  }

  // What is written parses back, whatever follows it.
  lemma ParseEncode(f: Fragment, rest: seq<byte>)
    requires WellFormed(f)
    ensures ParseFragment(Encode(f) + rest) == Some(Parsed(f, rest))
  {
    var b := Encode(f) + rest;
    HeaderRoundTrip(f.h, f.body + rest);
    assert b == EncodeHeader(f.h) + (f.body + rest);
    var end := DTLS1_HM_HEADER_LENGTH + f.h.fragLen;
    assert b[DTLS1_HM_HEADER_LENGTH..end] == f.body;
    assert b[end..] == rest;
  }

  // And only what is written that way parses: the wire form of a fragment is unique.
  lemma EncodeParse(b: seq<byte>)
    requires ParseFragment(b).Some?
    ensures var p := ParseFragment(b).value; Encode(p.fragment) + p.rest == b
  {
    var p := ParseFragment(b).value;
    var h := p.fragment.h;
    var end := DTLS1_HM_HEADER_LENGTH + h.fragLen;
    assert EncodeHeader(h) == b[..DTLS1_HM_HEADER_LENGTH] by {
      HeaderOctets(b);
    }
    assert b == b[..DTLS1_HM_HEADER_LENGTH] + b[DTLS1_HM_HEADER_LENGTH..end] + b[end..];
  }

  lemma HeaderOctets(b: seq<byte>)
    requires DTLS1_HM_HEADER_LENGTH <= |b|
    ensures EncodeHeader(ReadHeader(b)) == b[..DTLS1_HM_HEADER_LENGTH]
  {
    hide BE24, BE16, ReadBE24, ReadBE16;
    Octets24(b, 1);
    Octets16(b, 4);
    Octets24(b, 6);
    Octets24(b, 9);
  }

  lemma Octets24(b: seq<byte>, at: nat)
    requires at + 3 <= |b|
    ensures BE24(ReadBE24(b, at)) == [b[at], b[at + 1], b[at + 2]]
  {
    ThreeDigits(b[at], b[at + 1], b[at + 2]);
  }

  lemma ThreeDigits(x: int, y: int, z: int)
    requires 0 <= x < 256 && 0 <= y < 256 && 0 <= z < 256
    ensures var v := x * 65536 + y * 256 + z;
            v / 65536 % 256 == x && v / 256 % 256 == y && v % 256 == z
  {
    var v := x * 65536 + y * 256 + z;
    Octet(x * 256 + y, z);
    Octet(x, y);
    assert v / 65536 == v / 256 / 256;
  }

  lemma Octet(q: int, r: int)
    requires 0 <= q && 0 <= r < 256
    ensures (q * 256 + r) / 256 == q && (q * 256 + r) % 256 == r
  {
  }

  lemma Octets16(b: seq<byte>, at: nat)
    requires at + 2 <= |b|
    ensures BE16(ReadBE16(b, at)) == [b[at], b[at + 1]]
  {
  }

  // ---------------------------------------------------------------- messages

  // A handshake message; its number is its position among those sent.
  datatype Message = Message(kind: nat, body: seq<byte>)

  predicate Sendable(m: Message) {
    m.kind < U8 && |m.body| < U24
  }

  function WholeHeader(kind: nat, msgLen: nat, seqNum: nat): Header {
    Header(kind, msgLen, seqNum, 0, msgLen)
  }

  // A finished message is its own single fragment.
  function Finished(m: Message, seqNum: nat): seq<byte> {
    Encode(Fragment(WholeHeader(m.kind, |m.body|, seqNum), m.body))
  }

  // What the message builder leaves: a header whose message length is still zero, and whose
  // fragment length it has filled in.
  function Initial(m: Message, seqNum: nat): seq<byte> {
    EncodeHeader(Header(m.kind, 0, seqNum, 0, |m.body|)) + m.body
  }

  predicate LengthCopied(was: seq<byte>, b: seq<byte>) {
    && |b| == |was| >= DTLS1_HM_HEADER_LENGTH
    && b[1] == was[9] && b[2] == was[10] && b[3] == was[11]
    && b[0] == was[0] && forall k :: 4 <= k < |b| ==> b[k] == was[k]
  }

  // dtls1_finish_message: copy the fragment length over the message length.
  method FinishMessage(data: array<byte>) returns (ok: bool)
    modifies data
    ensures ok == (data.Length >= DTLS1_HM_HEADER_LENGTH)
    ensures if ok then LengthCopied(old(data[..]), data[..]) else data[..] == old(data[..])
  {
    if data.Length < DTLS1_HM_HEADER_LENGTH {
      return false;
    }
    forall k | 0 <= k < 3 {
      data[1 + k] := data[DTLS1_HM_HEADER_LENGTH - 3 + k];
    }
    return true;
  }

  // Which is what makes the built message its own single fragment.
  lemma FinishedOctets(b: seq<byte>, m: Message, seqNum: nat)
    requires LengthCopied(Initial(m, seqNum), b)
    ensures b == Finished(m, seqNum)
  {
  }
}
