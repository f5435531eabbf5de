/**
 Sending a flight of handshake messages: cutting them into fragments, packing the fragments into
 packets no larger than the MTU, and resuming after a write that did not go through.

 A sealed record is kept as what it carries and its size on the wire.
 */
module DtlsFlight {
  import opened Bytes
  import opened DtlsMessages

  const DTLS1_RT_HEADER_LENGTH := 13
  const SSL3_MT_CCS: byte := 1

  // ---------------------------------------------------------------- records

  // A cipher adds an explicit nonce and a tag, whose length may depend on the plaintext's.
  datatype Aead = Aead(nonceLen: nat, maxTag: nat, tag: nat -> nat)

  ghost predicate TagsBounded(a: Aead) {
    forall n: nat :: a.tag(n) <= a.maxTag
  }

  function MaxSealOverhead(a: Aead): nat {
    DTLS1_RT_HEADER_LENGTH + a.nonceLen + a.maxTag
  }

  function SealPrefixLen(a: Aead): nat {
    DTLS1_RT_HEADER_LENGTH + a.nonceLen
  }

  datatype Record = Record(isCcs: bool, epoch: nat, payload: seq<byte>, size: nat)

  function Sealed(a: Aead, isCcs: bool, epoch: nat, payload: seq<byte>): Record {
    Record(isCcs, epoch, payload, DTLS1_RT_HEADER_LENGTH + a.nonceLen + |payload| + a.tag(|payload|))
  }

  // Records whose body would not fit a 16-bit length are refused.
  predicate TooLarge(r: Record) {
    r.size - DTLS1_RT_HEADER_LENGTH >= 0xffff
  }

  // ---------------------------------------------------------------- one message

  datatype Outgoing = Outgoing(data: seq<byte>, epoch: nat, isCcs: bool)

  datatype Connection = Connection(wEpoch: nat, current: Aead, previous: Aead)

  ghost predicate ConnectionOk(c: Connection) {
    c.wEpoch < U16 && TagsBounded(c.current) && TagsBounded(c.previous)
  }

  function CipherFor(c: Connection, epoch: nat): Option<Aead> {
    if c.wEpoch >= 1 && epoch == c.wEpoch - 1 then Some(c.previous)
    else if epoch != c.wEpoch then None
    else Some(c.current)
  }

  // What to put into a packet next; last when it finishes the message.
  datatype Plan = Refuse | NoRoom | Put(record: Record, todo: nat, last: bool)

  function Piece(f: Fragment, offset: nat, todo: nat): Fragment
    requires offset + todo <= |f.body|
  {
    Fragment(f.h.(fragOff := offset, fragLen := todo), f.body[offset..offset + todo])
  }

  // A stored message must be a single whole fragment, and the offset within it.
  function WholeMessage(data: seq<byte>, offset: nat): (f: Option<Fragment>)
    ensures f.Some? ==> WellFormed(f.value) && offset <= |f.value.body| == f.value.h.msgLen
  {
    var p := ParseFragment(data);
    if p.None? then None
    else
      var f := p.value.fragment;
      if f.h.fragOff != 0 || f.h.fragLen != |f.body| || f.h.msgLen != |f.body| || offset > |f.body|
         || p.value.rest != [] then None
      else Some(f)
  }

  // The decisions of seal_next_message.
  function PlanMessage(c: Connection, msg: Outgoing, offset: nat, maxOut: nat): Plan {
    var cipher := CipherFor(c, msg.epoch);
    if cipher.None? then Refuse
    else
      var overhead := MaxSealOverhead(cipher.value);
      if msg.isCcs then
        if maxOut < 1 + overhead then NoRoom
        else Put(Sealed(cipher.value, true, msg.epoch, [SSL3_MT_CCS]), 0, true)
      else
        var whole := WholeMessage(msg.data, offset);
        if whole.None? then Refuse
        else if maxOut < DTLS1_HM_HEADER_LENGTH + 1 + overhead || maxOut < SealPrefixLen(cipher.value) then
          NoRoom
        else
          var left := |whole.value.body| - offset;
          var todo := Min(left, maxOut - DTLS1_HM_HEADER_LENGTH - overhead);
          Put(Sealed(cipher.value, false, msg.epoch, Encode(Piece(whole.value, offset, todo))),
              todo, todo == left)
  }

  // ---------------------------------------------------------------- one packet

  datatype Cursor = Cursor(written: nat, offset: nat)

  // Where sealing goes on: a finished handshake message resets the offset.
  function After(msg: Outgoing, cursor: Cursor, todo: nat, last: bool): Cursor {
    if msg.isCcs then Cursor(cursor.written + 1, cursor.offset)
    else if last then Cursor(cursor.written + 1, 0)
    else Cursor(cursor.written, cursor.offset + todo)
  }

  datatype Packed = Packed(records: seq<Record>, cursor: Cursor, refused: bool)

  // A cipher may fail at any time, for reasons of its own: here, at these positions of the flight.
  type Faults = Cursor -> bool

  // What fits into a packet from a position on.
  function Pack(c: Connection, msgs: seq<Outgoing>, cursor: Cursor, maxOut: nat, faults: Faults): Packed
    decreases |msgs| - cursor.written
  {
    if cursor.written >= |msgs| then Packed([], cursor, false)
    else
      var msg := msgs[cursor.written];
      match PlanMessage(c, msg, cursor.offset, maxOut)
      case Refuse => Packed([], cursor, true)
      case NoRoom => Packed([], cursor, false)
      case Put(record, todo, last) =>
        if faults(cursor) || TooLarge(record) || record.size > maxOut then Packed([], cursor, true)
        else if !last then Packed([record], After(msg, cursor, todo, false), false)
        else
          var rest := Pack(c, msgs, After(msg, cursor, todo, true), maxOut - record.size, faults);
          Packed([record] + rest.records, rest.cursor, rest.refused)
  }

  function TotalSize(records: seq<Record>): nat {
    if records == [] then 0 else records[0].size + TotalSize(records[1..])
  }

  lemma {:induction false} PackFits(c: Connection, msgs: seq<Outgoing>, cursor: Cursor, maxOut: nat, faults: Faults)
    ensures TotalSize(Pack(c, msgs, cursor, maxOut, faults).records) <= maxOut
    decreases |msgs| - cursor.written
  {
    hide PlanMessage;
    if cursor.written < |msgs| {
      var msg := msgs[cursor.written];
      match PlanMessage(c, msg, cursor.offset, maxOut)
      case Refuse =>
      case NoRoom =>
      case Put(record, todo, last) =>
        if !faults(cursor) && !TooLarge(record) && record.size <= maxOut && last {
          var next := After(msg, cursor, todo, true);
          PackFits(c, msgs, next, maxOut - record.size, faults);
          var rest := Pack(c, msgs, next, maxOut - record.size, faults);
          assert ([record] + rest.records)[1..] == rest.records;
        }
    }
  }

  // The room that was planned for is enough: sealing never overruns it.
  lemma PlanFits(c: Connection, msg: Outgoing, offset: nat, maxOut: nat)
    requires ConnectionOk(c)
    ensures var plan := PlanMessage(c, msg, offset, maxOut);
            plan.Put? ==> plan.record.size <= maxOut
  {
  }

  // What a message needs to be given any room at all: one octet, all headers, the most a cipher adds.
  function Needed(msg: Outgoing, cipher: Aead): nat {
    1 + (if msg.isCcs then 0 else DTLS1_HM_HEADER_LENGTH) + MaxSealOverhead(cipher)
  }

  // A packet that ends here with this much room left could not have taken anything more.
  ghost predicate NothingFits(c: Connection, msgs: seq<Outgoing>, cursor: Cursor, left: int) {
    cursor.written >= |msgs| ||
    (var cipher := CipherFor(c, msgs[cursor.written].epoch);
     cipher.Some? && left < Needed(msgs[cursor.written], cipher.value))
  }

  /**
   A packet that is not refused is full: it ends at the end of the flight, or where what is left of the
   room is too little for one more octet of the message to be sent next.
   */
  lemma {:induction false} PacketIsFull(c: Connection, msgs: seq<Outgoing>, cursor: Cursor, maxOut: nat, faults: Faults)
    requires ConnectionOk(c)
    ensures var packed := Pack(c, msgs, cursor, maxOut, faults);
            !packed.refused ==> NothingFits(c, msgs, packed.cursor, maxOut - TotalSize(packed.records))
    decreases |msgs| - cursor.written
  {
    hide PlanMessage, ConnectionOk, TotalSize, Needed;
    NoSize();
    if cursor.written < |msgs| {
      var msg := msgs[cursor.written];
      var plan := PlanMessage(c, msg, cursor.offset, maxOut);
      PlanFills(c, msg, cursor.offset, maxOut);
      if plan.Put? && !faults(cursor) && !TooLarge(plan.record) && plan.record.size <= maxOut {
        OneSize(plan.record, []);
        assert [plan.record] + [] == [plan.record];
        if plan.last {
          var next := After(msg, cursor, plan.todo, true);
          PacketIsFull(c, msgs, next, maxOut - plan.record.size, faults);
          OneSize(plan.record, Pack(c, msgs, next, maxOut - plan.record.size, faults).records);
        }
      }
    }
  }

  lemma NoSize()
    ensures TotalSize([]) == 0
  {
  }

  lemma {:induction false} OneSize(r: Record, rest: seq<Record>)
    ensures TotalSize([r] + rest) == r.size + TotalSize(rest)
  {
    assert ([r] + rest)[1..] == rest;
  }

  // A message gets no room only if it needs more, and is cut only where the room ends.
  lemma PlanFills(c: Connection, msg: Outgoing, offset: nat, maxOut: nat)
    requires ConnectionOk(c)
    ensures var plan := PlanMessage(c, msg, offset, maxOut);
            match plan
            case Refuse => true
            case NoRoom =>
              CipherFor(c, msg.epoch).Some? && maxOut < Needed(msg, CipherFor(c, msg.epoch).value)
            case Put(record, todo, last) =>
              CipherFor(c, msg.epoch).Some? &&
              (!last ==>
                 && !msg.isCcs
                 && todo == maxOut - DTLS1_HM_HEADER_LENGTH - MaxSealOverhead(CipherFor(c, msg.epoch).value)
                 && maxOut - record.size < Needed(msg, CipherFor(c, msg.epoch).value))
  {
    hide ParseFragment, Encode;
  }

  // ---------------------------------------------------------------- what a stream of records says

  ghost predicate Sendings(msgs: seq<Outgoing>) {
    forall k :: 0 <= k < |msgs| ==> msgs[k].isCcs || WholeMessage(msgs[k].data, 0).Some?
  }

  function Whole(msg: Outgoing): Fragment
    requires WholeMessage(msg.data, 0).Some?
  {
    WholeMessage(msg.data, 0).value
  }

  // A position in the flight that is not past a message it stands in.
  ghost predicate CursorOk(msgs: seq<Outgoing>, cursor: Cursor) {
    && Sendings(msgs)
    && cursor.written <= |msgs|
    && (cursor.written == |msgs| || msgs[cursor.written].isCcs ==> cursor.offset == 0)
    && (cursor.written < |msgs| && !msgs[cursor.written].isCcs ==>
          cursor.offset == 0 || cursor.offset < |Whole(msgs[cursor.written]).body|)
  }

  // The fragment is the part of the whole message that starts at an offset.
  predicate CutAt(g: Fragment, whole: Fragment, offset: nat) {
    && g.h.kind == whole.h.kind && g.h.msgLen == whole.h.msgLen && g.h.seqNum == whole.h.seqNum
    && g.h.fragOff == offset && g.h.fragLen == |g.body|
    && offset + |g.body| <= |whole.body|
    && g.body == whole.body[offset..offset + |g.body|]
  }

  // Where a stream has come to after one more record, if that is the record it must continue with.
  ghost function Advance(msgs: seq<Outgoing>, cursor: Cursor, record: Record): Option<Cursor>
    requires CursorOk(msgs, cursor)
  {
    if cursor.written == |msgs| || record.isCcs != msgs[cursor.written].isCcs
       || record.epoch != msgs[cursor.written].epoch then None
    else if record.isCcs then
      if record.payload == [SSL3_MT_CCS] then Some(Cursor(cursor.written + 1, 0)) else None
    else
      var whole, p := Whole(msgs[cursor.written]), ParseFragment(record.payload);
      if p.None? || p.value.rest != [] || !CutAt(p.value.fragment, whole, cursor.offset) then None
      else
        var end := cursor.offset + |p.value.fragment.body|;
        if end == |whole.body| then Some(Cursor(cursor.written + 1, 0))
        else if end == cursor.offset then None
        else Some(Cursor(cursor.written, end))
  }

  ghost function Emits(msgs: seq<Outgoing>, cursor: Cursor, records: seq<Record>): (end: Option<Cursor>)
    requires CursorOk(msgs, cursor)
    ensures end.Some? ==> CursorOk(msgs, end.value)
    decreases |records|
  {
    if records == [] then Some(cursor)
    else
      var next := Advance(msgs, cursor, records[0]);
      if next.None? then None else Emits(msgs, next.value, records[1..])
  }

  lemma {:induction false} EmitsCompose(msgs: seq<Outgoing>, cursor: Cursor, a: seq<Record>, b: seq<Record>)
    requires CursorOk(msgs, cursor) && Emits(msgs, cursor, a).Some?
    ensures Emits(msgs, cursor, a + b) == Emits(msgs, Emits(msgs, cursor, a).value, b)
    decreases |a|
  {
    if a == [] {
      assert a + b == b;
    } else {
      assert (a + b)[1..] == a[1..] + b;
      EmitsCompose(msgs, Advance(msgs, cursor, a[0]).value, a[1..], b);
    }
  }

  lemma {:induction false} EmitsNothing(msgs: seq<Outgoing>, cursor: Cursor)
    requires CursorOk(msgs, cursor)
    ensures Emits(msgs, cursor, []) == Some(cursor)
  {
  }

  lemma {:induction false} EmitsOneMore(msgs: seq<Outgoing>, cursor: Cursor, a: seq<Record>, r: Record)
    requires CursorOk(msgs, cursor) && Emits(msgs, cursor, a).Some?
    ensures Emits(msgs, cursor, a + [r]) == Advance(msgs, Emits(msgs, cursor, a).value, r)
  {
    hide Advance;
    EmitsCompose(msgs, cursor, a, [r]);
    assert [r][1..] == [];
  }

  // A stream that is not empty never comes back to where it started.
  lemma {:induction false} EmitsMovesOn(msgs: seq<Outgoing>, cursor: Cursor, records: seq<Record>)
    requires CursorOk(msgs, cursor) && Emits(msgs, cursor, records).Some?
    ensures var end := Emits(msgs, cursor, records).value;
            if records == [] then end == cursor
            else end.written > cursor.written || (end.written == cursor.written && end.offset > cursor.offset)
    decreases |records|
  {
    hide ParseFragment, WholeMessage;
    if records != [] {
      EmitsMovesOn(msgs, Advance(msgs, cursor, records[0]).value, records[1..]);
    }
  }

  // Planning puts in what comes next in the stream, and moves on.
  lemma PlanAdvances(c: Connection, msgs: seq<Outgoing>, cursor: Cursor, maxOut: nat)
    requires CursorOk(msgs, cursor) && cursor.written < |msgs|
    requires PlanMessage(c, msgs[cursor.written], cursor.offset, maxOut).Put?
    ensures var msg := msgs[cursor.written];
            var plan := PlanMessage(c, msg, cursor.offset, maxOut);
            Advance(msgs, cursor, plan.record) == Some(After(msg, cursor, plan.todo, plan.last))
    ensures var plan := PlanMessage(c, msgs[cursor.written], cursor.offset, maxOut);
            (plan.last || plan.todo > 0) && CursorOk(msgs, After(msgs[cursor.written], cursor, plan.todo, plan.last))
  {
    hide ParseFragment, Encode;
    var msg := msgs[cursor.written];
    var plan := PlanMessage(c, msg, cursor.offset, maxOut);
    if !msg.isCcs {
      var whole := Whole(msg);
      assert WholeMessage(msg.data, cursor.offset) == Some(whole);
      var g := Piece(whole, cursor.offset, plan.todo);
      ParseEncode(g, []);
      assert Encode(g) + [] == Encode(g);
    }
  }

  lemma {:induction false} PackEmits(c: Connection, msgs: seq<Outgoing>, cursor: Cursor, maxOut: nat, faults: Faults)
    requires CursorOk(msgs, cursor)
    ensures var packed := Pack(c, msgs, cursor, maxOut, faults);
            Emits(msgs, cursor, packed.records) == Some(packed.cursor)
    ensures var packed := Pack(c, msgs, cursor, maxOut, faults);
            packed.records != [] ==>
              packed.cursor.written > cursor.written ||
              (packed.cursor.written == cursor.written && packed.cursor.offset > cursor.offset)
    ensures Pack(c, msgs, cursor, maxOut, faults).cursor.written >= cursor.written
    decreases |msgs| - cursor.written
  {
    hide PlanMessage, Advance, CursorOk;
    if cursor.written < |msgs| {
      var msg := msgs[cursor.written];
      var plan := PlanMessage(c, msg, cursor.offset, maxOut);
      if plan.Put? && !faults(cursor) && !TooLarge(plan.record) && plan.record.size <= maxOut {
        PlanAdvances(c, msgs, cursor, maxOut);
        var next := After(msg, cursor, plan.todo, plan.last);
        assert Emits(msgs, cursor, [plan.record]) == Some(next);
        if plan.last {
          var rest := Pack(c, msgs, next, maxOut - plan.record.size, faults);
          PackEmits(c, msgs, next, maxOut - plan.record.size, faults);
          assert ([plan.record] + rest.records)[1..] == rest.records;
        }
      }
    }
  }

  // ---------------------------------------------------------------- reading a stream back

  datatype Item = ChangeCipherSpec | Handshake(kind: nat, seqNum: nat, body: seq<byte>)

  function ItemOf(msg: Outgoing): Item
    requires msg.isCcs || WholeMessage(msg.data, 0).Some?
  {
    if msg.isCcs then ChangeCipherSpec else Handshake(Whole(msg).h.kind, Whole(msg).h.seqNum, Whole(msg).body)
  }

  ghost function Items(msgs: seq<Outgoing>, from: nat): seq<Item>
    requires Sendings(msgs) && from <= |msgs|
    decreases |msgs| - from
  {
    if from == |msgs| then [] else [ItemOf(msgs[from])] + Items(msgs, from + 1)
  }

  // The simplest reader of an orderly stream: append bodies until a message is as long as it says.
  function Collect(records: seq<Record>, soFar: seq<byte>): seq<Item> {
    if records == [] then []
    else if records[0].isCcs then [ChangeCipherSpec] + Collect(records[1..], [])
    else
      var p := ParseFragment(records[0].payload);
      if p.None? then Collect(records[1..], soFar)
      else
        var g := p.value.fragment;
        var body := soFar + g.body;
        if |body| == g.h.msgLen then [Handshake(g.h.kind, g.h.seqNum, body)] + Collect(records[1..], [])
        else Collect(records[1..], body)
  }

  ghost function SoFar(msgs: seq<Outgoing>, cursor: Cursor): seq<byte>
    requires CursorOk(msgs, cursor)
  {
    if cursor.offset == 0 then [] else Whole(msgs[cursor.written]).body[..cursor.offset]
  }

  /**
   A stream that reaches the end of the flight carries every message exactly once, in order, each
   cut into pieces that start at offset 0 and follow one another to its end.
   */
  lemma {:induction false} StreamIsFlight(msgs: seq<Outgoing>, cursor: Cursor, records: seq<Record>)
    requires CursorOk(msgs, cursor)
    requires Emits(msgs, cursor, records) == Some(Cursor(|msgs|, 0))
    ensures Collect(records, SoFar(msgs, cursor)) == Items(msgs, cursor.written)
    decreases |records|
  {
    hide Advance, Collect, SoFar, ItemOf, CursorOk, Sendings;
    if records == [] {
      NothingCollected(msgs);
    } else {
      var next := Advance(msgs, cursor, records[0]).value;
      AdvanceOk(msgs, cursor, records[0]);
      StreamIsFlight(msgs, next, records[1..]);
      CollectStep(msgs, cursor, records, next);
    }
  }

  lemma AdvanceOk(msgs: seq<Outgoing>, cursor: Cursor, record: Record)
    requires CursorOk(msgs, cursor)
    ensures Advance(msgs, cursor, record).Some? ==> CursorOk(msgs, Advance(msgs, cursor, record).value)
  {
    hide ParseFragment, WholeMessage;
  }

  lemma NothingCollected(msgs: seq<Outgoing>)
    requires CursorOk(msgs, Cursor(|msgs|, 0))
    ensures Collect([], SoFar(msgs, Cursor(|msgs|, 0))) == []
  {
  }

  // Reading one more record of a stream: a message ends, or its body goes on.
  lemma {:induction false} CollectStep(msgs: seq<Outgoing>, cursor: Cursor, records: seq<Record>, next: Cursor)
    requires CursorOk(msgs, cursor) && records != [] && Advance(msgs, cursor, records[0]) == Some(next)
    requires CursorOk(msgs, next)
    ensures cursor.written < |msgs|
    ensures Collect(records, SoFar(msgs, cursor))
         == (if next.written == cursor.written then [] else [ItemOf(msgs[cursor.written])])
            + Collect(records[1..], SoFar(msgs, next))
    ensures next.written == cursor.written || next.written == cursor.written + 1
  {
    hide ParseFragment, WholeMessage;
    var msg := msgs[cursor.written];
    if !msg.isCcs {
      var g, whole := ParseFragment(records[0].payload).value.fragment, Whole(msg);
      var end := cursor.offset + |g.body|;
      assert SoFar(msgs, cursor) + g.body == whole.body[..end];
      WholeLength(msg);
    }
  }

  lemma WholeLength(msg: Outgoing)
    requires WholeMessage(msg.data, 0).Some?
    ensures Whole(msg).h.msgLen == |Whole(msg).body|
    ensures Whole(msg).body[..|Whole(msg).body|] == Whole(msg).body
  {
  }

  // ---------------------------------------------------------------- the MTU

  // Which MTU leaves room for something of every message: one octet of body, all headers and the
  // most a cipher adds. A packet then is empty only if its first message is refused.
  lemma RoomForProgress(c: Connection, msgs: seq<Outgoing>, cursor: Cursor, mtu: nat)
    requires CursorOk(msgs, cursor) && cursor.written < |msgs|
    requires CipherFor(c, msgs[cursor.written].epoch).Some?
    ensures PlanMessage(c, msgs[cursor.written], cursor.offset, mtu).NoRoom?
       <==> mtu < Needed(msgs[cursor.written], CipherFor(c, msgs[cursor.written].epoch).value)
  {
    hide ParseFragment;
  }

  // The rest of a flight can be sealed under this MTU: each message's epoch still has its cipher, the
  // MTU has room for progress, and is not so large that a full record could be refused.
  ghost predicate Sealable(c: Connection, msgs: seq<Outgoing>, from: nat, mtu: nat) {
    && mtu < 0xffff + DTLS1_RT_HEADER_LENGTH
    && Ciphered(c, msgs, from)
    && forall k :: from <= k < |msgs| && CipherFor(c, msgs[k].epoch).Some? ==>
         mtu >= Needed(msgs[k], CipherFor(c, msgs[k].epoch).value)
  }

  ghost predicate Ciphered(c: Connection, msgs: seq<Outgoing>, from: nat) {
    forall k :: from <= k < |msgs| ==> CipherFor(c, msgs[k].epoch).Some?
  }

  // Messages are stored under the write epoch of the moment, which only grows before it wraps.
  ghost predicate EpochsInOrder(msgs: seq<Outgoing>, wEpoch: nat) {
    && (forall i, j :: 0 <= i < j < |msgs| ==> msgs[i].epoch <= msgs[j].epoch)
    && forall i :: 0 <= i < |msgs| ==> msgs[i].epoch <= wEpoch
  }

  // So if one message still has its cipher, all after it have.
  lemma LaterCiphered(c: Connection, msgs: seq<Outgoing>, i: nat)
    requires EpochsInOrder(msgs, c.wEpoch) && i < |msgs| && CipherFor(c, msgs[i].epoch).Some?
    ensures Ciphered(c, msgs, i)
  {
  }

  ghost predicate NeverFails(faults: Faults) {
    forall cursor :: !faults(cursor)
  }

  // Whatever room there is, ciphered messages are not refused while the room is below the largest record.
  lemma {:induction false} NoneRefused(c: Connection, msgs: seq<Outgoing>, cursor: Cursor, maxOut: nat, faults: Faults)
    requires NeverFails(faults)
    requires CursorOk(msgs, cursor) && ConnectionOk(c) && Ciphered(c, msgs, cursor.written)
    requires maxOut < 0xffff + DTLS1_RT_HEADER_LENGTH
    ensures !Pack(c, msgs, cursor, maxOut, faults).refused
    decreases |msgs| - cursor.written
  {
    hide PlanMessage, CursorOk, ConnectionOk, CipherFor, MaxSealOverhead;
    if cursor.written < |msgs| {
      var msg := msgs[cursor.written];
      NotRefused(c, msgs, cursor, maxOut);
      PlanFits(c, msg, cursor.offset, maxOut);
      var plan := PlanMessage(c, msg, cursor.offset, maxOut);
      if plan.Put? {
        PlanAdvances(c, msgs, cursor, maxOut);
        if plan.last {
          NoneRefused(c, msgs, After(msg, cursor, plan.todo, true), maxOut - plan.record.size, faults);
        }
      }
    }
  }

  // Nothing of a sealable rest of a flight is refused, and no packet of it is empty.
  lemma {:induction false} NothingRefused(c: Connection, msgs: seq<Outgoing>, cursor: Cursor, mtu: nat, faults: Faults)
    requires NeverFails(faults)
    requires CursorOk(msgs, cursor) && ConnectionOk(c) && Sealable(c, msgs, cursor.written, mtu)
    ensures !Pack(c, msgs, cursor, mtu, faults).refused
    ensures cursor.written < |msgs| ==> Pack(c, msgs, cursor, mtu, faults).records != []
  {
    hide PlanMessage, CursorOk, ConnectionOk, CipherFor, MaxSealOverhead;
    NoneRefused(c, msgs, cursor, mtu, faults);
    if cursor.written < |msgs| {
      NotRefused(c, msgs, cursor, mtu);
      RoomForProgress(c, msgs, cursor, mtu);
      PlanFits(c, msgs[cursor.written], cursor.offset, mtu);
    }
  }

  // With epochs in order a packet is refused half-way only for a record that is too large.
  lemma {:induction false} OnlySizeRefusesHalfway(c: Connection, msgs: seq<Outgoing>, cursor: Cursor, mtu: nat,
                                                  faults: Faults)
    requires NeverFails(faults)
    requires CursorOk(msgs, cursor) && ConnectionOk(c) && EpochsInOrder(msgs, c.wEpoch)
    requires Pack(c, msgs, cursor, mtu, faults).refused && Pack(c, msgs, cursor, mtu, faults).records != []
    ensures mtu >= 0xffff + DTLS1_RT_HEADER_LENGTH
  {
    hide CursorOk, ConnectionOk, MaxSealOverhead, EpochsInOrder, Ciphered, CipherFor, PlanMessage;
    PutHasCipher(c, msgs[cursor.written], cursor.offset, mtu);
    LaterCiphered(c, msgs, cursor.written);
    if mtu < 0xffff + DTLS1_RT_HEADER_LENGTH {
      NoneRefused(c, msgs, cursor, mtu, faults);
    }
  }

  lemma PutHasCipher(c: Connection, msg: Outgoing, offset: nat, mtu: nat)
    ensures PlanMessage(c, msg, offset, mtu).Put? ==> CipherFor(c, msg.epoch).Some?
  {
  }

  lemma NotRefused(c: Connection, msgs: seq<Outgoing>, cursor: Cursor, maxOut: nat)
    requires CursorOk(msgs, cursor) && cursor.written < |msgs|
    requires CipherFor(c, msgs[cursor.written].epoch).Some?
    ensures !PlanMessage(c, msgs[cursor.written], cursor.offset, maxOut).Refuse?
  {
    hide ParseFragment;
  }

  // A finished message is a whole one: the sender's own check of it passes.
  lemma FinishedIsWhole(m: Message, seqNum: nat)
    requires Sendable(m) && seqNum < U16
    ensures WholeMessage(Finished(m, seqNum), 0)
         == Some(Fragment(WholeHeader(m.kind, |m.body|, seqNum), m.body))
  {
    var f := Fragment(WholeHeader(m.kind, |m.body|, seqNum), m.body);
    ParseEncode(f, []);
    assert Encode(f) + [] == Encode(f);
  }

  // And it may be: under an MTU above the largest record, a packet that begins with a ChangeCipherSpec
  // is refused at the long message after it.
  lemma {:induction false} RefusedHalfway(c: Connection, m: Message, mtu: nat)
    requires ConnectionOk(c) && c.wEpoch == 0 && MaxSealOverhead(c.current) < 0x400
    requires Sendable(m) && |m.body| >= 0x2_0000 && 0x1_1000 <= mtu < 0x1_8000
    ensures var msgs := [Outgoing([], 0, true), Outgoing(Finished(m, 0), 0, false)];
            var packed := Pack(c, msgs, Cursor(0, 0), mtu, _ => false);
            packed.refused && |packed.records| == 1 && packed.cursor == Cursor(1, 0)
  {
    hide Finished, WholeMessage;
    var msgs := [Outgoing([], 0, true), Outgoing(Finished(m, 0), 0, false)];
    FinishedIsWhole(m, 0);
    var first := Sealed(c.current, true, 0, [SSL3_MT_CCS]);
    PlanFits(c, msgs[0], 0, mtu);
    assert PlanMessage(c, msgs[0], 0, mtu) == Put(first, 0, true);
    var plan := PlanMessage(c, msgs[1], 0, mtu - first.size);
    assert plan.Put? && TooLarge(plan.record);
    assert Pack(c, msgs, Cursor(1, 0), mtu - first.size, _ => false) == Packed([], Cursor(1, 0), true);
  }

  // ---------------------------------------------------------------- the source's object

  datatype SealResult = SealError | NoProgress | SealPartial(r: Record) | SealSuccess(r: Record)

  datatype FlightStatus = AllWritten | WantWrite | FlightFailed

  function Flatten(packets: seq<seq<Record>>): seq<Record> {
    if packets == [] then [] else Flatten(packets[..|packets| - 1]) + packets[|packets| - 1]
  }

  // After each of these packets, sent one after the other, nothing more would have fitted into it.
  ghost predicate AllFull(c: Connection, msgs: seq<Outgoing>, start: Cursor, packets: seq<seq<Record>>, mtu: nat)
    requires CursorOk(msgs, start)
  {
    packets == [] || (
      var n := |packets| - 1;
      var end := Emits(msgs, start, Flatten(packets));
      && AllFull(c, msgs, start, packets[..n], mtu)
      && end.Some? && NothingFits(c, msgs, end.value, mtu - TotalSize(packets[n])))
  }

  lemma StillSealable(c: Connection, msgs: seq<Outgoing>, from: nat, later: nat, mtu: nat)
    requires Sealable(c, msgs, from, mtu) && from <= later
    ensures Sealable(c, msgs, later, mtu)
  {
  }

  // Every stored handshake message is one that was added to the transcript, under its number.
  ghost predicate Recorded(msgs: seq<Outgoing>, transcript: seq<seq<byte>>) {
    forall i :: 0 <= i < |msgs| && !msgs[i].isCcs ==> IsRecorded(msgs[i], transcript)
  }

  ghost predicate IsRecorded(msg: Outgoing, transcript: seq<seq<byte>>) {
    WholeMessage(msg.data, 0).Some? &&
    exists k :: 0 <= k < |transcript| && transcript[k] == msg.data && k % U16 == Whole(msg).h.seqNum
  }

  lemma NoMessages(wEpoch: nat, transcript: seq<seq<byte>>)
    ensures CursorOk([], Cursor(0, 0)) && Recorded([], transcript) && EpochsInOrder([], wEpoch)
  {
  }

  lemma OneMoreEpoch(msgs: seq<Outgoing>, wEpoch: nat, msg: Outgoing)
    requires EpochsInOrder(msgs, wEpoch) && msg.epoch == wEpoch
    ensures EpochsInOrder(msgs + [msg], wEpoch)
  {
  }

  // A message added under the next number keeps the flight and the transcript in order.
  lemma OneMoreMessage(msgs: seq<Outgoing>, cursor: Cursor, transcript: seq<seq<byte>>, msg: Outgoing)
    requires CursorOk(msgs, cursor) && Recorded(msgs, transcript) && Numbered(transcript)
    requires msg.isCcs || IsNumbered(msg.data, |transcript|)
    ensures var transcript' := transcript + (if msg.isCcs then [] else [msg.data]);
            CursorOk(msgs + [msg], cursor) && Recorded(msgs + [msg], transcript') && Numbered(transcript')
  {
    hide WholeMessage;
    if msg.isCcs {
      assert transcript + [] == transcript;
    } else {
      KeepRecorded(msgs, transcript, msg.data);
      assert (transcript + [msg.data])[|transcript|] == msg.data;
      assert IsRecorded(msg, transcript + [msg.data]);
    }
  }

  lemma KeepRecorded(msgs: seq<Outgoing>, transcript: seq<seq<byte>>, data: seq<byte>)
    requires Recorded(msgs, transcript)
    ensures Recorded(msgs, transcript + [data])
  {
    hide WholeMessage;
    forall i | 0 <= i < |msgs| && !msgs[i].isCcs ensures IsRecorded(msgs[i], transcript + [data]) {
      var k :| 0 <= k < |transcript| && transcript[k] == msgs[i].data && k % U16 == Whole(msgs[i]).h.seqNum;
      assert (transcript + [data])[k] == msgs[i].data;
    }
  }

  // Every message of the transcript is whole and numbered by its position.
  ghost predicate Numbered(transcript: seq<seq<byte>>) {
    forall k :: 0 <= k < |transcript| ==> IsNumbered(transcript[k], k)
  }

  ghost predicate IsNumbered(data: seq<byte>, k: nat) {
    WholeMessage(data, 0).Some? && WholeMessage(data, 0).value.h.seqNum == k % U16
  }

  class FlightWriter {
    var c: Connection
    var mtu: nat
    var messages: seq<Outgoing>
    var messagesComplete: bool
    var outgoingWritten: nat
    var outgoingOffset: nat
    var handshakeWriteSeq: nat
    var transcript: seq<seq<byte>>
    ghost var wrapped: bool // whether the write epoch has wrapped since the flight began

    ghost function At(): Cursor
      reads this
    {
      Cursor(outgoingWritten, outgoingOffset)
    }

    ghost predicate Valid()
      reads this
    {
      && ConnectionOk(c)
      && |messages| <= SSL_MAX_HANDSHAKE_FLIGHT
      && CursorOk(messages, At())
      && Recorded(messages, transcript) && Numbered(transcript)
      && (wrapped || EpochsInOrder(messages, c.wEpoch))
      && handshakeWriteSeq == |transcript| % U16
    }

    constructor (c: Connection, mtu: nat)
      requires ConnectionOk(c)
      ensures Valid() && this.c == c && this.mtu == mtu
      ensures messages == [] && !messagesComplete && At() == Cursor(0, 0) && transcript == []
    {
      this.c, this.mtu := c, mtu;
      messages, messagesComplete, transcript := [], false, [];
      outgoingWritten, outgoingOffset, handshakeWriteSeq, wrapped := 0, 0, 0, false;
    }

    // add_outgoing: the first message after a flight was flushed starts a new flight.
    method AddOutgoing(isCcs: bool, data: seq<byte>) returns (ok: bool)
      requires Valid()
      requires !isCcs ==> WholeMessage(data, 0).Some? && WholeMessage(data, 0).value.h.seqNum == handshakeWriteSeq
      modifies this
      ensures Valid() && c == old(c) && mtu == old(mtu)
      ensures var before := if old(messagesComplete) then [] else old(messages);
              && ok == (|before| < SSL_MAX_HANDSHAKE_FLIGHT && |data| <= 0xffff_ffff)
              && messages == before + (if ok then [Outgoing(data, c.wEpoch, isCcs)] else [])
              && transcript == old(transcript) + (if ok && !isCcs then [data] else [])
      ensures At() == if old(messagesComplete) then Cursor(0, 0) else old(At())
      ensures !messagesComplete && wrapped == (old(wrapped) && !old(messagesComplete))
    {
      hide WholeMessage, CursorOk, Recorded, Numbered, EpochsInOrder, IsRecorded, TagsBounded;
      if messagesComplete {
        NoMessages(c.wEpoch, transcript);
        messages, outgoingWritten, outgoingOffset, messagesComplete, wrapped := [], 0, 0, false, false;
      }
      if |messages| >= SSL_MAX_HANDSHAKE_FLIGHT || |data| > 0xffff_ffff {
        return false;
      }
      var msg := Outgoing(data, c.wEpoch, isCcs);
      OneMoreMessage(messages, At(), transcript, msg);
      assert isCcs ==> transcript + [] == transcript;
      if !wrapped {
        OneMoreEpoch(messages, c.wEpoch, msg);
      }
      if !isCcs {
        transcript := transcript + [data];
        handshakeWriteSeq := (handshakeWriteSeq + 1) % U16;
      }
      messages := messages + [msg];
      return true;
    }

    // The connection installs its next write state and keeps the one before, for retransmissions of
    // its epoch; older epochs are refused. When the epoch wraps, so is the one before.
    method SetWriteState(cipher: Aead)
      requires Valid() && TagsBounded(cipher)
      modifies this`c, this`wrapped
      ensures Valid() && wrapped == (old(wrapped) || old(c).wEpoch + 1 == U16)
      ensures c == Connection((old(c).wEpoch + 1) % U16, cipher, old(c).current)
      ensures CipherFor(c, c.wEpoch) == Some(cipher)
      ensures if old(c).wEpoch + 1 < U16 then CipherFor(c, old(c).wEpoch) == Some(old(c).current)
              else CipherFor(c, old(c).wEpoch) == None
      ensures forall epoch: nat :: epoch < old(c).wEpoch && old(c).wEpoch + 1 < U16 ==> CipherFor(c, epoch) == None
    {
      wrapped := wrapped || c.wEpoch + 1 == U16;
      c := Connection((c.wEpoch + 1) % U16, cipher, c.current);
    }

    // dtls_seal_record; sealing may also fail for reasons of the cipher's own.
    method SealRecord(cipher: Aead, isCcs: bool, epoch: nat, payload: seq<byte>, maxOut: nat, fault: bool)
      returns (sealed: Option<Record>)
      ensures var r := Sealed(cipher, isCcs, epoch, payload);
              sealed == if fault || TooLarge(r) || r.size > maxOut then None else Some(r)
    {
      var r := Sealed(cipher, isCcs, epoch, payload);
      sealed := if fault || TooLarge(r) || r.size > maxOut then None else Some(r);
    }

    // seal_next_message
    method SealNextMessage(maxOut: nat, msg: Outgoing, fault: bool) returns (result: SealResult)
      requires Valid() && outgoingWritten < |messages| && msg == messages[outgoingWritten]
      modifies this`outgoingOffset
      ensures match PlanMessage(c, msg, old(outgoingOffset), maxOut)
              case Refuse => result == SealError && At() == old(At())
              case NoRoom => result == NoProgress && At() == old(At())
              case Put(record, todo, last) =>
                if fault || TooLarge(record) || record.size > maxOut then
                  result == SealError && At() == old(At())
                else
                  && result == (if last then SealSuccess(record) else SealPartial(record))
                  && Cursor(outgoingWritten + (if last then 1 else 0), outgoingOffset)
                     == After(msg, old(At()), todo, last)
    {
      hide ParseFragment, Encode;
      var cipher := CipherFor(c, msg.epoch);
      if cipher.None? {
        return SealError;
      }
      var overhead, prefix := MaxSealOverhead(cipher.value), SealPrefixLen(cipher.value);
      var sealed;
      if msg.isCcs {
        if maxOut < 1 + overhead {
          return NoProgress;
        }
        sealed := SealRecord(cipher.value, true, msg.epoch, [SSL3_MT_CCS], maxOut, fault);
        return if sealed.None? then SealError else SealSuccess(sealed.value);
      }
      var whole := WholeMessage(msg.data, outgoingOffset);
      if whole.None? {
        return SealError;
      }
      if maxOut < DTLS1_HM_HEADER_LENGTH + 1 + overhead || maxOut < prefix {
        return NoProgress;
      }
      var left := |whole.value.body| - outgoingOffset;
      var todo := left;
      if todo > maxOut - DTLS1_HM_HEADER_LENGTH - overhead {
        todo := maxOut - DTLS1_HM_HEADER_LENGTH - overhead;
      }
      var payload := Encode(Piece(whole.value, outgoingOffset, todo));
      sealed := SealRecord(cipher.value, false, msg.epoch, payload, maxOut, fault);
      if sealed.None? {
        return SealError;
      }
      if todo == left {
        outgoingOffset := 0;
        return SealSuccess(sealed.value);
      }
      outgoingOffset := outgoingOffset + todo;
      return SealPartial(sealed.value);
    }

    // seal_next_packet
    method SealNextPacket(room: nat, faults: Faults) returns (ok: bool, packet: seq<Record>)
      requires Valid() && outgoingWritten < |messages|
      modifies this`outgoingWritten, this`outgoingOffset
      ensures Valid()
      ensures var packed := Pack(c, messages, old(At()), room, faults);
              && packed.records == packet && packed.cursor == At()
              && ok == (!packed.refused && packet != [])
      ensures Emits(messages, old(At()), packet) == Some(At())
      ensures ok ==> NothingFits(c, messages, At(), room - TotalSize(packet))
    {
      hide PlanMessage, CursorOk, TooLarge, TagsBounded, Recorded, Numbered, EpochsInOrder, Advance, Emits, NothingFits,
           TotalSize;
      EmitsNothing(messages, At());
      packet := [];
      var maxOut: nat := room;
      ghost var whole := Pack(c, messages, At(), room, faults);
      PacketIsFull(c, messages, At(), room, faults);
      while outgoingWritten < |messages|
        invariant Valid() && maxOut <= room
        invariant Emits(messages, old(At()), packet) == Some(At())
        invariant whole.records == packet + Pack(c, messages, At(), maxOut, faults).records
        invariant whole.cursor == Pack(c, messages, At(), maxOut, faults).cursor
        invariant whole.refused == Pack(c, messages, At(), maxOut, faults).refused
        decreases |messages| - outgoingWritten
      {
        var msg := messages[outgoingWritten];
        ghost var here := At();
        ghost var plan := PlanMessage(c, msg, outgoingOffset, maxOut);
        if plan.Put? {
          PlanAdvances(c, messages, here, maxOut);
          EmitsOneMore(messages, old(At()), packet, plan.record);
        }
        var result := SealNextMessage(maxOut, msg, faults(Cursor(outgoingWritten, outgoingOffset)));
        match result {
          case SealError => return false, packet;
          case NoProgress => break;
          case SealPartial(r) =>
            packet := packet + [r];
            maxOut := maxOut - r.size;
            return true, packet;
          case SealSuccess(r) =>
            packet := packet + [r];
            maxOut := maxOut - r.size;
            outgoingWritten := outgoingWritten + 1;
        }
      }
      ok := packet != [];
    }

    /**
     send_flight: pack and write until everything is written, every packet as full as the MTU allows.
     The transport takes the k-th packet if writes(k), and what it took reaches it if flushes. A packet
     that is not taken is given up: the position returns to its start, and it is what the next attempt
     packs. But when sealing fails in the middle of a packet, the position stays past the records sealed
     before, which were not written: it is where the written records end exactly if there are none such.
     */
    method SendFlight(faults: Faults, writes: nat -> bool, flushes: bool)
      returns (status: FlightStatus, packets: seq<seq<Record>>, ghost unsent: seq<Record>)
      requires Valid()
      modifies this`outgoingWritten, this`outgoingOffset
      ensures Valid()
      ensures forall k :: 0 <= k < |packets| ==> packets[k] != [] && TotalSize(packets[k]) <= mtu && writes(k)
      ensures AllFull(c, messages, old(At()), packets, mtu)
      ensures Emits(messages, old(At()), Flatten(packets)).Some?
      ensures status == FlightFailed ==> !NeverFails(faults) || !Sealable(c, messages, old(outgoingWritten), mtu)
      ensures status != FlightFailed ==> Emits(messages, old(At()), Flatten(packets)) == Some(At())
      ensures status == FlightFailed ==> Emits(messages, old(At()), Flatten(packets) + unsent) == Some(At())
      ensures status == FlightFailed ==> (Emits(messages, old(At()), Flatten(packets)) == Some(At()) <==> unsent == [])
      ensures status.AllWritten? ==> At() == Cursor(|messages|, 0) && flushes
      ensures status.WantWrite? && unsent != [] ==>
                !writes(|packets|) && Pack(c, messages, At(), mtu, faults).records == unsent
      ensures status.WantWrite? && unsent == [] ==> At() == Cursor(|messages|, 0) && !flushes
    {
      hide CursorOk, Advance, PlanMessage, Recorded, Numbered, EpochsInOrder, ConnectionOk, Sealable, Emits,
           NothingFits,
           NeverFails, TotalSize;
      EmitsNothing(messages, At());
      packets, unsent := [], [];
      while outgoingWritten < |messages|
        invariant Valid()
        invariant forall k :: 0 <= k < |packets| ==> packets[k] != [] && TotalSize(packets[k]) <= mtu && writes(k)
        invariant AllFull(c, messages, old(At()), packets, mtu)
        invariant Emits(messages, old(At()), Flatten(packets)) == Some(At())
        invariant old(outgoingWritten) <= outgoingWritten
        decreases |messages| - outgoingWritten, Left(messages, At())
      {
        var oldWritten, oldOffset := outgoingWritten, outgoingOffset;
        ghost var here := At();
        var ok, packet := SealNextPacket(mtu, faults);
        if !ok {
          if NeverFails(faults) && Sealable(c, messages, old(outgoingWritten), mtu) {
            StillSealable(c, messages, old(outgoingWritten), here.written, mtu);
            NothingRefused(c, messages, here, mtu, faults);
          }
          EmitsCompose(messages, old(At()), Flatten(packets), packet);
          EmitsMovesOn(messages, here, packet);
          return FlightFailed, packets, packet;
        }
        PackFits(c, messages, here, mtu, faults);
        PackEmits(c, messages, here, mtu, faults);
        if !writes(|packets|) {
          outgoingWritten, outgoingOffset := oldWritten, oldOffset;
          return WantWrite, packets, packet;
        }
        EmitsCompose(messages, old(At()), Flatten(packets), packet);
        if outgoingWritten == oldWritten {
          LeftShrinks(messages, here, At());
        }
        ghost var before := packets;
        packets := packets + [packet];
        assert packets[..|before|] == before;
      }
      EndOfFlight(messages, At());
      status := if flushes then AllWritten else WantWrite;
    }

    // dtls1_flush_flight: the flight is complete, and what is not yet written is written.
    method FlushFlight(faults: Faults, writes: nat -> bool, flushes: bool)
      returns (status: FlightStatus, packets: seq<seq<Record>>)
      requires Valid()
      modifies this`messagesComplete, this`outgoingWritten, this`outgoingOffset
      ensures Valid() && messagesComplete
      ensures forall k :: 0 <= k < |packets| ==> TotalSize(packets[k]) <= mtu
      ensures status.AllWritten? ==>
                At() == Cursor(|messages|, 0) && Emits(messages, old(At()), Flatten(packets)) == Some(At())
      ensures status == FlightFailed ==> !NeverFails(faults) || !Sealable(c, messages, old(outgoingWritten), mtu)
      ensures status.WantWrite? ==> !writes(|packets|) || !flushes
    {
      hide Emits, Recorded, Numbered, EpochsInOrder, ConnectionOk, CursorOk, Sealable, NeverFails;
      messagesComplete := true;
      ghost var unsent;
      status, packets, unsent := SendFlight(faults, writes, flushes);
    }

    // Write the whole flight again.
    method Retransmit(faults: Faults, writes: nat -> bool, flushes: bool)
      returns (status: FlightStatus, packets: seq<seq<Record>>)
      requires Valid()
      modifies this`outgoingWritten, this`outgoingOffset
      ensures Valid()
      ensures forall k :: 0 <= k < |packets| ==> TotalSize(packets[k]) <= mtu
      ensures CursorOk(messages, Cursor(0, 0))
      ensures status.AllWritten? ==> Emits(messages, Cursor(0, 0), Flatten(packets)) == Some(Cursor(|messages|, 0))
      ensures status.AllWritten? ==> Collect(Flatten(packets), []) == Items(messages, 0)
      ensures status == FlightFailed ==> !NeverFails(faults) || !Sealable(c, messages, 0, mtu)
      ensures status.WantWrite? ==> !writes(|packets|) || !flushes
    {
      hide Emits, Recorded, Numbered, EpochsInOrder, ConnectionOk, Sendings, Sealable, NeverFails;
      StartOfFlight(messages, At());
      outgoingWritten, outgoingOffset := 0, 0;
      ghost var unsent;
      status, packets, unsent := SendFlight(faults, writes, flushes);
      if status.AllWritten? {
        StreamIsFlight(messages, Cursor(0, 0), Flatten(packets));
      }
    }
  }

  ghost function Left(msgs: seq<Outgoing>, cursor: Cursor): nat
    requires CursorOk(msgs, cursor)
  {
    if cursor.written == |msgs| || msgs[cursor.written].isCcs then 0
    else |Whole(msgs[cursor.written]).body| - cursor.offset
  }

  lemma LeftShrinks(msgs: seq<Outgoing>, a: Cursor, b: Cursor)
    requires CursorOk(msgs, a) && CursorOk(msgs, b)
    requires a.written == b.written && a.offset < b.offset
    ensures Left(msgs, b) < Left(msgs, a)
  {
    hide WholeMessage;
  }

  lemma EndOfFlight(msgs: seq<Outgoing>, cursor: Cursor)
    requires CursorOk(msgs, cursor) && cursor.written >= |msgs|
    ensures cursor == Cursor(|msgs|, 0)
  {
  }

  lemma StartOfFlight(msgs: seq<Outgoing>, cursor: Cursor)
    requires CursorOk(msgs, cursor)
    ensures CursorOk(msgs, Cursor(0, 0))
  {
  }
}
