/**
 The receiving side of the DTLS handshake: a ring of seven messages in reassembly, what one
 fragment or record does to it, and what holds of it over whole runs.
 */
module DtlsReceiver {
  import opened Bytes
  import opened DtlsMessages
  import opened DtlsReassembly

  datatype Alert = DecodeError | IllegalParameter | UnexpectedMessage | InternalError

  // What else the connection knows when a record arrives.
  datatype Limits = Limits(rEpoch: nat, maxMessageLen: nat)

  datatype Receiver = Receiver(readSeq: nat, slots: seq<Option<Incoming>>)

  const EMPTY := Receiver(0, [None, None, None, None, None, None, None])

  predicate InWindow(r: Receiver, seqNum: nat) {
    r.readSeq <= seqNum < r.readSeq + SSL_MAX_HANDSHAKE_FLIGHT
  }

  // A slot holds the one message of the window that belongs there.
  predicate SlotOk(r: Receiver, i: nat, m: Incoming) {
    && m.seqNum % SSL_MAX_HANDSHAKE_FLIGHT == i
    && InWindow(r, m.seqNum) && m.seqNum < U16
    && Fits(WholeHeader(m.kind, m.msgLen, m.seqNum)) && InBounds(m)
  }

  predicate RingOk(r: Receiver) {
    && r.readSeq < U16
    && |r.slots| == SSL_MAX_HANDSHAKE_FLIGHT
    && forall i :: 0 <= i < |r.slots| && r.slots[i].Some? ==> SlotOk(r, i, r.slots[i].value)
  }

  function At(r: Receiver, seqNum: nat): Option<Incoming>
    requires |r.slots| == SSL_MAX_HANDSHAKE_FLIGHT
  {
    r.slots[seqNum % SSL_MAX_HANDSHAKE_FLIGHT]
  }

  // ---------------------------------------------------------------- one fragment

  datatype Found = Found(m: Incoming) | Refused(alert: Alert)

  // dtls1_get_incoming_message
  function IncomingMessage(r: Receiver, h: Header): Found
    requires |r.slots| == SSL_MAX_HANDSHAKE_FLIGHT
  {
    if h.seqNum < r.readSeq || h.seqNum - r.readSeq >= SSL_MAX_HANDSHAKE_FLIGHT then
      Refused(InternalError)
    else if At(r, h.seqNum).None? then Found(Incoming(h.kind, h.seqNum, h.msgLen, map[]))
    else
      var m := At(r, h.seqNum).value;
      if m.kind != h.kind || m.msgLen != h.msgLen then Refused(IllegalParameter) else Found(m)
  }

  datatype Handled = Handled(r: Receiver, alert: Option<Alert>)

  function Put(r: Receiver, seqNum: nat, m: Incoming): Receiver
    requires |r.slots| == SSL_MAX_HANDSHAKE_FLIGHT
  {
    r.(slots := r.slots[seqNum % SSL_MAX_HANDSHAKE_FLIGHT := Some(m)])
  }

  // What arrives for a complete message changes nothing.
  function Stored(m: Incoming, f: Fragment): Incoming {
    if Complete(m) then m else Received(m, f.h.fragOff, f.body)
  }

  predicate Excessive(h: Header, limits: Limits) {
    h.fragOff > h.msgLen || h.fragOff + h.fragLen > h.msgLen || h.msgLen > limits.maxMessageLen
  }

  // The loop body of dtls1_open_handshake.
  function HandleFragment(r: Receiver, limits: Limits, f: Fragment): Handled
    requires |r.slots| == SSL_MAX_HANDSHAKE_FLIGHT
  {
    var h := f.h;
    if Excessive(h, limits) then Handled(r, Some(IllegalParameter))
    else if limits.rEpoch == 1 && h.seqNum != r.readSeq then Handled(r, Some(UnexpectedMessage))
    else if h.seqNum < r.readSeq || h.seqNum > r.readSeq + SSL_MAX_HANDSHAKE_FLIGHT then
      Handled(r, None)
    else
      match IncomingMessage(r, h)
      case Refused(alert) => Handled(r, Some(alert))
      case Found(m) => Handled(Put(r, h.seqNum, Stored(m, f)), None)
  }

  lemma FragmentKeepsRing(r: Receiver, limits: Limits, f: Fragment)
    requires RingOk(r) && WellFormed(f)
    ensures RingOk(HandleFragment(r, limits, f).r)
    ensures HandleFragment(r, limits, f).r.readSeq == r.readSeq
  {
  }

  // The source's assertion: a slot in use where a fragment belongs is that fragment's message.
  lemma SameMessage(r: Receiver, h: Header)
    requires RingOk(r) && Fits(h) && InWindow(r, h.seqNum) && At(r, h.seqNum).Some?
    ensures At(r, h.seqNum).value.seqNum == h.seqNum
  {
    assert SlotOk(r, h.seqNum % SSL_MAX_HANDSHAKE_FLIGHT, At(r, h.seqNum).value);
  }

  // The message in progress that a fragment contradicts.
  ghost predicate Contradicts(r: Receiver, h: Header) {
    exists i | 0 <= i < |r.slots| ::
      r.slots[i].Some? && r.slots[i].value.seqNum == h.seqNum &&
      (r.slots[i].value.kind != h.kind || r.slots[i].value.msgLen != h.msgLen)
  }

  // Exactly which fragments end the connection, and with which alert; the one just past the window is
  // among them.
  lemma WhenRefused(r: Receiver, limits: Limits, f: Fragment)
    requires RingOk(r) && WellFormed(f)
    ensures var alert := HandleFragment(r, limits, f).alert;
            var early := limits.rEpoch == 1 && f.h.seqNum != r.readSeq;
            && (alert == Some(IllegalParameter) <==> Excessive(f.h, limits) || (!early && Contradicts(r, f.h)))
            && (alert == Some(UnexpectedMessage) <==> !Excessive(f.h, limits) && early)
            && (alert == Some(InternalError) <==>
                  !Excessive(f.h, limits) && !early && f.h.seqNum == r.readSeq + SSL_MAX_HANDSHAKE_FLIGHT)
            && alert != Some(DecodeError)
  {
  }

  // A record is fragments and nothing else.
  predicate AllFragments(record: seq<byte>)
    decreases |record|
  {
    record == [] || (ParseFragment(record).Some? && AllFragments(ParseFragment(record).value.rest))
  }

  // A record that is accepted consists of fragments; one that does not is refused, if not earlier for a
  // fragment, then as not decodable.
  lemma {:induction false} WhenNotDecodable(r: Receiver, limits: Limits, record: seq<byte>)
    requires RingOk(r)
    ensures HandleRecord(r, limits, record).alert.None? ==> AllFragments(record)
    ensures HandleRecord(r, limits, record).alert == Some(DecodeError) ==> !AllFragments(record)
    decreases |record|
  {
    hide HandleFragment, ParseFragment, RingOk;
    RingSize(r);
    if record != [] && ParseFragment(record).Some? {
      var p := ParseFragment(record).value;
      FragmentKeepsRing(r, limits, p.fragment);
      WhenRefused(r, limits, p.fragment);
      RingSize(HandleFragment(r, limits, p.fragment).r);
      WhenNotDecodable(HandleFragment(r, limits, p.fragment).r, limits, p.rest);
    }
  }

  // ---------------------------------------------------------------- one record

  function HandleRecord(r: Receiver, limits: Limits, record: seq<byte>): Handled
    requires |r.slots| == SSL_MAX_HANDSHAKE_FLIGHT
    decreases |record|
  {
    if record == [] then Handled(r, None)
    else
      match ParseFragment(record)
      case None => Handled(r, Some(DecodeError))
      case Some(p) =>
        var next := HandleFragment(r, limits, p.fragment);
        if next.alert.Some? then next
        else SlotsStay(r, limits, p.fragment); HandleRecord(next.r, limits, p.rest)
  }

  lemma SlotsStay(r: Receiver, limits: Limits, f: Fragment)
    requires |r.slots| == SSL_MAX_HANDSHAKE_FLIGHT
    ensures |HandleFragment(r, limits, f).r.slots| == SSL_MAX_HANDSHAKE_FLIGHT
  {
    hide Complete;
  }

  lemma {:induction false} RecordKeepsRing(r: Receiver, limits: Limits, record: seq<byte>)
    requires RingOk(r)
    ensures RingOk(HandleRecord(r, limits, record).r)
    ensures HandleRecord(r, limits, record).r.readSeq == r.readSeq
    decreases |record|
  {
    hide HandleFragment, ParseFragment, RingOk;
    assert |r.slots| == SSL_MAX_HANDSHAKE_FLIGHT by {
      RingSize(r);
    }
    if record != [] && ParseFragment(record).Some? {
      var p := ParseFragment(record).value;
      FragmentKeepsRing(r, limits, p.fragment);
      RingSize(HandleFragment(r, limits, p.fragment).r);
      RecordKeepsRing(HandleFragment(r, limits, p.fragment).r, limits, p.rest);
    }
  }

  lemma RingSize(r: Receiver)
    requires RingOk(r)
    ensures |r.slots| == SSL_MAX_HANDSHAKE_FLIGHT && r.readSeq < U16
  {
  }

  // ---------------------------------------------------------------- whole runs

  predicate CurrentComplete(r: Receiver)
    requires |r.slots| == SSL_MAX_HANDSHAKE_FLIGHT
  {
    At(r, r.readSeq).Some? && Complete(At(r, r.readSeq).value)
  }

  // dtls1_next_message; the read sequence number has 16 bits.
  function NextMessage(r: Receiver): Receiver
    requires |r.slots| == SSL_MAX_HANDSHAKE_FLIGHT
  {
    Receiver((r.readSeq + 1) % U16, r.slots[r.readSeq % SSL_MAX_HANDSHAKE_FLIGHT := None])
  }

  // Also across the wrap: when the last number has been read, nothing else can be waiting.
  lemma NextKeepsRing(r: Receiver)
    requires RingOk(r)
    ensures RingOk(NextMessage(r))
  {
  }

  // A handshake record arrives, or the handshake takes the current message and moves on.
  datatype Event = Arrives(record: seq<byte>, limits: Limits) | Next

  datatype State = State(r: Receiver, delivered: seq<Incoming>, failed: Option<Alert>)

  function Step(s: State, e: Event): State
    requires |s.r.slots| == SSL_MAX_HANDSHAKE_FLIGHT
  {
    if s.failed.Some? then s
    else
      match e
      case Arrives(record, limits) =>
        var after := HandleRecord(s.r, limits, record);
        State(after.r, s.delivered, after.alert)
      case Next =>
        if CurrentComplete(s.r) then
          State(NextMessage(s.r), s.delivered + [At(s.r, s.r.readSeq).value], None)
        else s
  }

  function Run(events: seq<Event>): (s: State)
    ensures RingOk(s.r)
  {
    if events == [] then State(EMPTY, [], None)
    else
      var s := Run(events[..|events| - 1]);
      StepKeepsRing(s, events[|events| - 1]);
      Step(s, events[|events| - 1])
  }

  lemma StepKeepsRing(s: State, e: Event)
    requires RingOk(s.r)
    ensures RingOk(Step(s, e).r)
  {
    hide RingOk, HandleRecord, CurrentComplete, NextMessage;
    RingSize(s.r);
    match e {
      case Arrives(record, limits) => RecordKeepsRing(s.r, limits, record);
      case Next => NextKeepsRing(s.r);
    }
  }

  /**
   Order: in every run, whatever the network does, the messages are delivered whole, and the k-th
   of them is number k (modulo 2^16); the read sequence number counts them.
   */
  lemma {:induction false} DeliveredInOrder(events: seq<Event>)
    ensures Run(events).r.readSeq == |Run(events).delivered| % U16
    ensures forall k :: 0 <= k < |Run(events).delivered| ==>
              var m := Run(events).delivered[k];
              m.seqNum == k % U16 && Complete(m) && InBounds(m)
  {
    hide Fits, Complete, InBounds, RingOk, HandleRecord;
    if events != [] {
      var before, e := events[..|events| - 1], events[|events| - 1];
      DeliveredInOrder(before);
      var s := Run(before);
      RingSize(s.r);
      match e
      case Arrives(record, limits) => RecordKeepsRing(s.r, limits, record);
      case Next =>
        if CurrentComplete(s.r) {
          CurrentIs(s.r);
        }
    }
  }

  lemma CurrentIs(r: Receiver)
    requires RingOk(r) && At(r, r.readSeq).Some?
    ensures At(r, r.readSeq).value.seqNum == r.readSeq && InBounds(At(r, r.readSeq).value)
  {
    assert SlotOk(r, r.readSeq % SSL_MAX_HANDSHAKE_FLIGHT, At(r, r.readSeq).value);
  }

  // ---------------------------------------------------------------- which octets have arrived

  // Message n has octet p.
  predicate Holds(r: Receiver, n: nat, p: nat)
    requires |r.slots| == SSL_MAX_HANDSHAKE_FLIGHT
  {
    At(r, n).Some? && p in At(r, n).value.content
  }

  predicate Covers(f: Fragment, n: nat, p: nat) {
    f.h.seqNum == n && Within(p, f.h.fragOff, f.h.fragLen)
  }

  lemma FragmentCoverage(r: Receiver, limits: Limits, f: Fragment, n: nat, p: nat)
    requires RingOk(r) && WellFormed(f) && HandleFragment(r, limits, f).alert.None?
    requires InWindow(r, n) && n < U16
    ensures RingOk(HandleFragment(r, limits, f).r)
    ensures var r' := HandleFragment(r, limits, f).r;
            && (At(r', n).Some? <==> At(r, n).Some? || f.h.seqNum == n)
            && (Holds(r', n, p) <==> Holds(r, n, p) || Covers(f, n, p))
            && (Holds(r', n, p) ==>
                  At(r', n).value.content[p]
                  == if Covers(f, n, p) && !(At(r, n).Some? && Complete(At(r, n).value)) then f.body[p - f.h.fragOff]
                     else At(r, n).value.content[p])
  {
    hide Fits;
    FragmentKeepsRing(r, limits, f);
    if InWindow(r, f.h.seqNum) {
      var found := IncomingMessage(r, f.h);
      SameWindowSlot(r, n, f.h.seqNum);
      if At(r, f.h.seqNum).Some? {
        SameMessage(r, f.h) by {
          assert Fits(f.h);
        }
      }
      if f.h.seqNum == n {
        StoredCoverage(found.m, f, p);
      }
    }
  }

  lemma SameWindowSlot(r: Receiver, n: nat, k: nat)
    requires InWindow(r, n) && InWindow(r, k)
    ensures n % SSL_MAX_HANDSHAKE_FLIGHT == k % SSL_MAX_HANDSHAKE_FLIGHT <==> n == k
  {
  }

  // Storing a fragment adds its range; a complete message already has every range.
  lemma StoredCoverage(m: Incoming, f: Fragment, p: nat)
    requires f.h.fragOff + f.h.fragLen <= m.msgLen && |f.body| == f.h.fragLen
    ensures p in Stored(m, f).content <==> p in m.content || Within(p, f.h.fragOff, f.h.fragLen)
    ensures p in Stored(m, f).content ==>
              Stored(m, f).content[p]
              == if Within(p, f.h.fragOff, f.h.fragLen) && !Complete(m) then f.body[p - f.h.fragOff] else m.content[p]
  {
  }

  // The fragments in a record, as far as it parses.
  function Fragments(record: seq<byte>): seq<Fragment>
    decreases |record|
  {
    if record == [] || ParseFragment(record).None? then []
    else [ParseFragment(record).value.fragment] + Fragments(ParseFragment(record).value.rest)
  }

  predicate Mentions(fs: seq<Fragment>, n: nat) {
    fs != [] && (fs[0].h.seqNum == n || Mentions(fs[1..], n))
  }

  predicate CoversOne(fs: seq<Fragment>, n: nat, p: nat) {
    fs != [] && (Covers(fs[0], n, p) || CoversOne(fs[1..], n, p))
  }

  lemma {:induction false} RecordCoverage(r: Receiver, limits: Limits, record: seq<byte>, n: nat, p: nat)
    requires RingOk(r) && HandleRecord(r, limits, record).alert.None?
    requires InWindow(r, n) && n < U16
    ensures RingOk(HandleRecord(r, limits, record).r)
    ensures var r' := HandleRecord(r, limits, record).r;
            && (At(r', n).Some? <==> At(r, n).Some? || Mentions(Fragments(record), n))
            && (Holds(r', n, p) <==> Holds(r, n, p) || CoversOne(Fragments(record), n, p))
    decreases |record|
  {
    hide HandleFragment, ParseFragment, RingOk, Covers, At, Holds;
    RingSize(r);
    RecordKeepsRing(r, limits, record);
    if record != [] {
      var parsed := ParseFragment(record).value;
      var fs := Fragments(record);
      assert fs[0] == parsed.fragment && fs[1..] == Fragments(parsed.rest);
      FragmentKeepsRing(r, limits, parsed.fragment);
      FragmentCoverage(r, limits, parsed.fragment, n, p);
      RecordCoverage(HandleFragment(r, limits, parsed.fragment).r, limits, parsed.rest, n, p);
    }
  }

  // Over a run: has octet p of message n arrived while n was not ahead of the window?
  predicate Arrived(events: seq<Event>, n: nat, p: nat) {
    events != [] &&
    var before, e := events[..|events| - 1], events[|events| - 1];
    Arrived(before, n, p) ||
    (e.Arrives? && n < Run(before).r.readSeq + SSL_MAX_HANDSHAKE_FLIGHT &&
     CoversOne(Fragments(e.record), n, p))
  }

  predicate Heard(events: seq<Event>, n: nat) {
    events != [] &&
    var before, e := events[..|events| - 1], events[|events| - 1];
    Heard(before, n) ||
    (e.Arrives? && n < Run(before).r.readSeq + SSL_MAX_HANDSHAKE_FLIGHT &&
     Mentions(Fragments(e.record), n))
  }

  // Reassembly is exact over a run: a message of the window has the octets that arrived, and no
  // message past the window has any.
  lemma {:induction false} RunCoverage(events: seq<Event>, n: nat, p: nat)
    requires Run(events).failed.None? && |Run(events).delivered| < U16
    requires Run(events).r.readSeq <= n < U16
    ensures InWindow(Run(events).r, n) ==>
              && (At(Run(events).r, n).Some? <==> Heard(events, n))
              && (Holds(Run(events).r, n, p) <==> Arrived(events, n, p))
    ensures !InWindow(Run(events).r, n) ==> !Heard(events, n) && !Arrived(events, n, p)
  {
    hide HandleRecord, RingOk, Fragments, CurrentComplete, At, Holds, NextMessage;
    DeliveredInOrder(events);
    if events == [] {
      NothingHeld(n, p);
    } else {
      var before, e := events[..|events| - 1], events[|events| - 1];
      var s := Run(before);
      RingSize(s.r);
      DeliveredInOrder(before);
      match e {
        case Arrives(record, limits) =>
          RecordKeepsRing(s.r, limits, record);
          if InWindow(s.r, n) {
            RecordCoverage(s.r, limits, record, n, p);
          }
        case Next =>
          if CurrentComplete(s.r) {
            NextCoverage(s.r, n, p);
          }
      }
      RunCoverage(before, n, p);
    }
  }

  lemma NothingHeld(n: nat, p: nat)
    ensures At(EMPTY, n).None? && !Holds(EMPTY, n, p)
  {
  }

  lemma NextCoverage(r: Receiver, n: nat, p: nat)
    requires RingOk(r) && r.readSeq < n
    ensures NextMessage(r).readSeq == (r.readSeq + 1) % U16
    ensures |NextMessage(r).slots| == SSL_MAX_HANDSHAKE_FLIGHT
    ensures InWindow(r, n) ==>
              At(NextMessage(r), n) == At(r, n) && Holds(NextMessage(r), n, p) == Holds(r, n, p)
    ensures n == r.readSeq + SSL_MAX_HANDSHAKE_FLIGHT ==>
              At(NextMessage(r), n).None? && !Holds(NextMessage(r), n, p)
  {
    RingSize(r);
    hide RingOk;
    if InWindow(r, n) {
      SameWindowSlot(r, n, r.readSeq);
    } else if n == r.readSeq + SSL_MAX_HANDSHAKE_FLIGHT {
      SameSlotAgain(r.readSeq);
    }
  }

  lemma SameSlotAgain(k: nat)
    ensures (k + SSL_MAX_HANDSHAKE_FLIGHT) % SSL_MAX_HANDSHAKE_FLIGHT == k % SSL_MAX_HANDSHAKE_FLIGHT
  {
  }

  predicate AllArrived(events: seq<Event>, n: nat, msgLen: nat) {
    forall p: nat :: p < msgLen ==> Arrived(events, n, p)
  }

  /**
   A message is available exactly when it has been heard of and every octet of it has arrived,
   in whatever pieces, order and number of copies.
   */
  lemma {:induction false} AvailableWhenCovered(events: seq<Event>)
    requires Run(events).failed.None? && |Run(events).delivered| < U16
    ensures var r := Run(events).r;
            && (At(r, r.readSeq).Some? <==> Heard(events, r.readSeq))
            && (CurrentComplete(r) <==>
                At(r, r.readSeq).Some? && AllArrived(events, r.readSeq, At(r, r.readSeq).value.msgLen))
  {
    hide Run, Heard, RingOk;
    var r := Run(events).r;
    RingSize(r);
    forall p: nat
      ensures (At(r, r.readSeq).Some? <==> Heard(events, r.readSeq)) &&
              (Holds(r, r.readSeq, p) <==> Arrived(events, r.readSeq, p))
    {
      RunCoverage(events, r.readSeq, p);
    }
    assert At(r, r.readSeq).Some? <==> Heard(events, r.readSeq) by {
      RunCoverage(events, r.readSeq, 0);
    }
    if At(r, r.readSeq).Some? {
      forall p: nat ensures p in At(r, r.readSeq).value.content <==> Arrived(events, r.readSeq, p) {
        assert Holds(r, r.readSeq, p) <==> Arrived(events, r.readSeq, p);
      }
    }
  }
}
