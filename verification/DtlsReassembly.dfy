/**
 One incoming handshake message: its buffer, its map of received octets, and what the pair of
 them says about the ranges that have been marked.
 */
module DtlsReassembly {
  import opened Bytes
  import opened Words
  import opened DtlsMessages

  // ---------------------------------------------------------------- what a fragment stands for

  // A message being received: the octets received so far, by position.
  datatype Incoming = Incoming(kind: nat, seqNum: nat, msgLen: nat, content: map<nat, byte>)

  predicate Within(i: nat, off: nat, size: nat) {
    off <= i < off + size
  }

  predicate Complete(m: Incoming) {
    forall i :: 0 <= i < m.msgLen ==> i in m.content
  }

  predicate InBounds(m: Incoming) {
    forall i <- m.content :: i < m.msgLen
  }

  // The octets at positions off and up, later ones replacing earlier ones.
  function Received(m: Incoming, off: nat, body: seq<byte>): Incoming {
    m.(content := m.content + map i: nat | off <= i < off + |body| && Within(i, off, |body|) :: body[i - off])
  }

  function Body(m: Incoming): (b: seq<byte>)
    requires Complete(m)
    ensures |b| == m.msgLen
  {
    seq(m.msgLen, i requires 0 <= i < m.msgLen => m.content[i])
  }

  // The header is rebuilt as that of a single fragment.
  function Raw(m: Incoming): seq<byte>
    requires Complete(m)
  {
    EncodeHeader(WholeHeader(m.kind, m.msgLen, m.seqNum)) + Body(m)
  }

  // ---------------------------------------------------------------- bits of the map

  // The source's 32-bit masks, cut to an octet.
  function BitRange(start: nat, end: nat): byte
    requires start <= 8 && end <= 8
  {
    SmallPowers(start);
    And(Not(32, Pow2(start) - 1), Pow2(end) - 1) % 256
  }

  lemma {:induction false} SmallPowers(k: nat)
    requires k <= 8
    ensures Pow2(k) <= 256 <= Pow2(32)
  {
    Pow2Of8();
    Pow2Grows(k, 8);
    Pow2Grows(8, 32);
  }

  lemma {:induction false} BitRangeBits(start: nat, end: nat, i: nat)
    requires start <= 8 && end <= 8 && i < 8
    ensures Bit(BitRange(start, end), i) == (start <= i < end)
  {
    hide Bit, And, Not, Pow2;
    SmallPowers(start);
    var high, low := Not(32, Pow2(start) - 1), Pow2(end) - 1;
    Pow2Of8();
    LowBits(8, And(high, low), i);
    AndBits(high, low, i);
    NotBits(32, Pow2(start) - 1, i);
    MaskBits(start, i);
    MaskBits(end, i);
  }

  lemma Pow2Of8()
    ensures Pow2(8) == 256
  {
  }

  function OrByte(a: byte, b: byte): byte {
    Pow2Of8();
    OrBound(a, b, 8);
    Or(a, b)
  }

  ghost predicate LowBitsOnly(b: byte, end: nat) {
    forall i: nat :: i < 8 ==> Bit(b, i) == (i < end)
  }

  // An octet with the bits of a range and no other is that range's mask.
  lemma IsRange(b: byte, end: nat)
    requires end <= 8
    ensures b == BitRange(0, end) <==> LowBitsOnly(b, end)
  {
    hide BitRange;
    forall i: nat | i < 8 ensures Bit(BitRange(0, end), i) == (i < end) {
      BitRangeBits(0, end, i);
    }
    if LowBitsOnly(b, end) {
      Pow2Of8();
      SameBits(8, b, BitRange(0, end));
    }
  }

  lemma FullOctet()
    ensures BitRange(0, 8) == 0xff
  {
    Pow2Of8();
    forall i: nat | i < 8 ensures Bit(0xff, i) {
      MaskBits(8, i);
    }
    IsRange(0xff, 8);
  }

  // Bit k of octet j is position 8 * j + k.
  predicate Marked(bits: seq<byte>, p: nat)
    requires p / 8 < |bits|
  {
    Bit(bits[p / 8], p % 8)
  }

  ghost predicate MarkedAsBefore(was: seq<byte>, now: seq<byte>, start: nat, end: nat) {
    && |was| == |now|
    && forall p: nat :: p < 8 * |now| ==> Marked(now, p) == (Marked(was, p) || start <= p < end)
  }

  // One octet at a time: what each octet must be for the whole range to be marked.
  ghost predicate OctetDone(was: byte, now: byte, j: nat, start: nat, end: nat) {
    forall k: nat :: k < 8 ==> Bit(now, k) == (Bit(was, k) || start <= 8 * j + k < end)
  }

  lemma OctetsDone(was: seq<byte>, now: seq<byte>, start: nat, end: nat)
    requires |was| == |now|
    requires forall j :: 0 <= j < |now| ==> OctetDone(was[j], now[j], j, start, end)
    ensures MarkedAsBefore(was, now, start, end)
  {
  }

  // Where a range starts or ends within an octet.
  function Clamp(x: int): (c: nat)
    ensures c <= 8
  {
    if x < 0 then 0 else if x > 8 then 8 else x
  }

  lemma OctetOr(b: byte, j: nat, from: nat, to: nat, start: nat, end: nat)
    requires from == Clamp(start - 8 * j) && to == Clamp(end - 8 * j)
    ensures OctetDone(b, OrByte(b, BitRange(from, to)), j, start, end)
  {
    hide Bit, BitRange, Or;
    forall k: nat | k < 8
      ensures Bit(OrByte(b, BitRange(from, to)), k) == (Bit(b, k) || start <= 8 * j + k < end)
    {
      OrBits(b, BitRange(from, to), k);
      BitRangeBits(from, to, k);
    }
  }

  lemma OctetFull(b: byte, j: nat, start: nat, end: nat)
    requires start <= 8 * j && 8 * j + 8 <= end
    ensures OctetDone(b, 0xff, j, start, end)
  {
    hide BitRange;
    FullOctet();
    IsRange(0xff, 8);
  }

  lemma OctetUntouched(b: byte, j: nat, start: nat, end: nat)
    requires end <= 8 * j || 8 * j + 8 <= start
    ensures OctetDone(b, b, j, start, end)
  {
  }

  // Set the bits of a range.
  method MarkRange(bits: array<byte>, start: nat, end: nat)
    requires start < end <= 8 * bits.Length
    modifies bits
    ensures MarkedAsBefore(old(bits[..]), bits[..], start, end)
  {
    hide Bit, BitRange, OctetDone, OrByte, MarkedAsBefore;
    ghost var was := bits[..];
    var first, last := start / 8, end / 8;
    if first == last {
      OctetOr(was[first], first, start % 8, end % 8, start, end);
      bits[first] := OrByte(bits[first], BitRange(start % 8, end % 8));
    } else {
      OctetOr(was[first], first, start % 8, 8, start, end);
      bits[first] := OrByte(bits[first], BitRange(start % 8, 8));
      var i := first + 1;
      while i < last
        invariant first + 1 <= i <= last
        invariant forall j :: first <= j < i ==> OctetDone(was[j], bits[j], j, start, end)
        invariant forall j :: 0 <= j < bits.Length && !(first <= j < i) ==> bits[j] == was[j]
        modifies bits
      {
        OctetFull(was[i], i, start, end);
        bits[i] := 0xff;
        i := i + 1;
      }
      if end % 8 != 0 {
        OctetOr(was[last], last, 0, end % 8, start, end);
        bits[last] := OrByte(bits[last], BitRange(0, end % 8));
      }
    }
    forall j | 0 <= j < bits.Length ensures OctetDone(was[j], bits[j], j, start, end) {
      if bits[j] == was[j] && !(8 * j < end && start < 8 * j + 8) {
        OctetUntouched(was[j], j, start, end);
      }
    }
    OctetsDone(was, bits[..], start, end);
  }

  // No position past the message is marked.
  ghost predicate NoneBeyond(bits: seq<byte>, msgLen: nat) {
    forall p: nat :: msgLen <= p < 8 * |bits| ==> !Marked(bits, p)
  }

  ghost predicate AllMarked(bits: seq<byte>, msgLen: nat) {
    forall p: nat :: p < msgLen && p < 8 * |bits| ==> Marked(bits, p)
  }

  ghost predicate LowBitsSet(b: byte, size: nat) {
    forall k: nat :: k < size ==> Bit(b, k)
  }

  lemma OctetComplete(bits: seq<byte>, msgLen: nat, j: nat, size: nat)
    requires j < |bits| && 8 * j <= msgLen && size == Clamp(msgLen - 8 * j)
    requires NoneBeyond(bits, msgLen)
    ensures bits[j] == BitRange(0, size) <==> LowBitsSet(bits[j], size)
  {
    hide BitRange;
    IsRange(bits[j], size);
    forall k: nat | size <= k < 8 ensures !Bit(bits[j], k) {
      var p := 8 * j + k;
      assert !Marked(bits, p);
    }
  }

  ghost predicate MarkedBelow(bits: seq<byte>, n: nat)
    requires n <= 8 * |bits|
  {
    forall p: nat :: p < n ==> Marked(bits, p)
  }

  // Comparing one octet with its mask decides its part of the message.
  lemma OctetDecides(bits: seq<byte>, msgLen: nat, j: nat, size: nat)
    requires j < |bits| && 8 * j <= msgLen <= 8 * |bits| && size == Clamp(msgLen - 8 * j)
    requires NoneBeyond(bits, msgLen)
    ensures if bits[j] != BitRange(0, size) then !AllMarked(bits, msgLen)
            else MarkedBelow(bits, 8 * j) ==> MarkedBelow(bits, 8 * j + size)
  {
    hide BitRange, NoneBeyond;
    OctetComplete(bits, msgLen, j, size);
    if bits[j] != BitRange(0, size) {
      var k: nat :| k < size && !Bit(bits[j], k);
      assert !Marked(bits, 8 * j + k);
    } else if MarkedBelow(bits, 8 * j) {
      forall p: nat | p < 8 * j + size ensures Marked(bits, p) {
        if p >= 8 * j {
          assert Bit(bits[j], p % 8);
        }
      }
    }
  }

  // Is every octet of the message marked?
  method IsComplete(bits: array<byte>, msgLen: nat) returns (complete: bool)
    requires bits.Length == (msgLen + 7) / 8 && NoneBeyond(bits[..], msgLen)
    ensures complete == AllMarked(bits[..], msgLen)
  {
    hide BitRange, NoneBeyond, Marked;
    FullOctet();
    var i := 0;
    while i < msgLen / 8
      invariant 0 <= i <= msgLen / 8
      invariant MarkedBelow(bits[..], 8 * i)
    {
      OctetDecides(bits[..], msgLen, i, 8);
      if bits[i] != 0xff {
        return false;
      }
      i := i + 1;
    }
    if msgLen % 8 != 0 {
      OctetDecides(bits[..], msgLen, i, msgLen % 8);
      if bits[msgLen / 8] != BitRange(0, msgLen % 8) {
        return false;
      }
    }
    return true;
  }

  // ---------------------------------------------------------------- the source's object

  class HmFragment {
    const kind: nat
    const seqNum: nat
    const msgLen: nat
    const data: array<byte>
    var reassembly: array?<byte>

    ghost predicate Valid()
      reads this, data, reassembly
    {
      && Fits(WholeHeader(kind, msgLen, seqNum))
      && data.Length == DTLS1_HM_HEADER_LENGTH + msgLen
      && data[..DTLS1_HM_HEADER_LENGTH] == EncodeHeader(WholeHeader(kind, msgLen, seqNum))
      && MapFits()
      && (reassembly != null ==> !AllMarked(reassembly[..], msgLen))
    }

    ghost predicate MapFits()
      reads this, reassembly
    {
      reassembly != null ==>
        && reassembly != data
        && reassembly.Length == (msgLen + 7) / 8
        && NoneBeyond(reassembly[..], msgLen)
    }

    // Position p of the body has been received; without a map, everything has.
    ghost predicate Has(p: nat)
      requires p < msgLen && MapFits()
      reads this, reassembly
    {
      reassembly != null ==> Marked(reassembly[..], p)
    }

    ghost function Value(): Incoming
      requires data.Length == DTLS1_HM_HEADER_LENGTH + msgLen && MapFits()
      reads this, data, reassembly
    {
      Incoming(kind, seqNum, msgLen,
               map p: nat | p < msgLen && Has(p) :: data[DTLS1_HM_HEADER_LENGTH + p])
    }

    // The map is gone exactly when everything has been received.
    lemma CompleteWithoutMap()
      requires Valid()
      ensures Complete(Value()) <==> reassembly == null
      ensures InBounds(Value())
    {
      if reassembly != null {
        var p: nat :| p < msgLen && !Marked(reassembly[..], p);
        assert !Has(p) && p !in Value().content;
      }
    }

    // A complete message is its buffer, header and all.
    lemma RawIsData()
      requires Valid() && reassembly == null
      ensures Complete(Value()) && Raw(Value()) == data[..]
    {
      CompleteWithoutMap();
      assert Body(Value()) == data[DTLS1_HM_HEADER_LENGTH..];
    }

    // dtls1_hm_fragment_new: an empty message is complete at once.
    constructor (h: Header)
      requires Fits(h)
      ensures Valid() && Value() == Incoming(h.kind, h.seqNum, h.msgLen, map[])
      ensures fresh(data) && (reassembly != null ==> fresh(reassembly))
    {
      kind, seqNum, msgLen := h.kind, h.seqNum, h.msgLen;
      var buffer := new byte[DTLS1_HM_HEADER_LENGTH + h.msgLen];
      var header := EncodeHeader(WholeHeader(h.kind, h.msgLen, h.seqNum));
      forall k | 0 <= k < DTLS1_HM_HEADER_LENGTH {
        buffer[k] := header[k];
      }
      data := buffer;
      if h.msgLen > 0 {
        var bits := new byte[(h.msgLen + 7) / 8](_ => 0);
        reassembly := bits;
        NothingMarked(bits[..]);
        assert !Marked(bits[..], 0);
      } else {
        reassembly := null;
      }
      new;
      assert data[..DTLS1_HM_HEADER_LENGTH] == header;
      assert Value().content == map[];
    }

    // dtls1_hm_fragment_mark
    method Mark(start: nat, end: nat)
      requires start <= end <= msgLen && reassembly != null && MapFits()
      requires data.Length == DTLS1_HM_HEADER_LENGTH + msgLen
      requires !AllMarked(reassembly[..], msgLen)
      modifies this`reassembly, reassembly
      ensures reassembly == null || reassembly == old(reassembly)
      ensures MapFits()
      ensures reassembly != null ==> !AllMarked(reassembly[..], msgLen)
      ensures forall p: nat :: p < msgLen ==> Has(p) == (old(Has(p)) || start <= p < end)
    {
      hide Marked;
      if start == end {
        return;
      }
      MarkRange(reassembly, start, end);
      var complete := IsComplete(reassembly, msgLen);
      if complete {
        reassembly := null;
      }
    }

    // Copy a part of the body into place and mark it.
    method Store(off: nat, body: seq<byte>)
      requires Valid() && reassembly != null && off + |body| <= msgLen
      modifies this`reassembly, reassembly, data
      ensures Valid() && (reassembly == null || reassembly == old(reassembly))
      ensures Value() == Received(old(Value()), off, body)
    {
      hide Marked, Fits, EncodeHeader;
      forall k | 0 <= k < |body| {
        data[DTLS1_HM_HEADER_LENGTH + off + k] := body[k];
      }
      assert reassembly[..] == old(reassembly[..]);
      Mark(off, off + |body|);
      assert data[..DTLS1_HM_HEADER_LENGTH] == old(data[..DTLS1_HM_HEADER_LENGTH]);
      StoredContent(off, body, old(Value()));
    }

    lemma StoredContent(off: nat, body: seq<byte>, was: Incoming)
      requires data.Length == DTLS1_HM_HEADER_LENGTH + msgLen && MapFits() && off + |body| <= msgLen
      requires was.(content := map[]) == Incoming(kind, seqNum, msgLen, map[]) && InBounds(was)
      requires forall p: nat :: p < msgLen ==> Has(p) == (p in was.content || off <= p < off + |body|)
      requires forall p: nat :: p < msgLen ==>
                 if Within(p, off, |body|) then data[DTLS1_HM_HEADER_LENGTH + p] == body[p - off]
                 else p in was.content ==> data[DTLS1_HM_HEADER_LENGTH + p] == was.content[p]
      ensures Value() == Received(was, off, body)
    {
    }
  }

  lemma NothingMarked(bits: seq<byte>)
    requires forall j :: 0 <= j < |bits| ==> bits[j] == 0
    ensures forall p: nat :: p < 8 * |bits| ==> !Marked(bits, p)
  {
    forall p: nat | p < 8 * |bits| ensures !Marked(bits, p) {
      ZeroBits(p % 8);
    }
  }
}
