/**
 Sender, network and receiver together: fragments of finished messages, cut under any room, lost,
 repeated, reordered and overlapping as the network likes, give the receiver exactly the sender's
 messages.
 */
module DtlsTransport {
  import opened Bytes
  import opened DtlsMessages
  import opened DtlsReassembly
  import opened DtlsReceiver
  import F = DtlsFlight

  // ---------------------------------------------------------------- genuine fragments

  predicate AllSendable(sent: seq<Message>) {
    |sent| < U16 && forall k :: 0 <= k < |sent| ==> Sendable(sent[k])
  }

  // The fragment is some part of the message with its number.
  predicate Genuine(f: Fragment, sent: seq<Message>) {
    && WellFormed(f)
    && f.h.seqNum < |sent|
    && f.h.kind == sent[f.h.seqNum].kind
    && f.h.msgLen == |sent[f.h.seqNum].body|
    && f.h.fragOff + f.h.fragLen <= f.h.msgLen
    && f.body == sent[f.h.seqNum].body[f.h.fragOff..f.h.fragOff + f.h.fragLen]
  }

  predicate GenuineRecord(record: seq<byte>, sent: seq<Message>)
    decreases |record|
  {
    record == [] ||
    (ParseFragment(record).Some? && Genuine(ParseFragment(record).value.fragment, sent) &&
     GenuineRecord(ParseFragment(record).value.rest, sent))
  }

  lemma {:induction false} OneFragmentRecord(f: Fragment, rest: seq<byte>, sent: seq<Message>)
    requires Genuine(f, sent) && GenuineRecord(rest, sent)
    ensures GenuineRecord(Encode(f) + rest, sent)
    ensures Fragments(Encode(f) + rest) == [f] + Fragments(rest)
  {
    hide ParseFragment, Encode, Genuine;
    ParseEncode(f, rest) by {
      assert WellFormed(f) by {
        GenuineFits(f, sent);
      }
    }
    if Encode(f) + rest == [] {
      EncodeLength(f);
    }
  }

  lemma GenuineFits(f: Fragment, sent: seq<Message>)
    requires Genuine(f, sent)
    ensures WellFormed(f)
  {
  }

  lemma EncodeLength(f: Fragment)
    ensures |Encode(f)| > 0
  {
  }

  // ---------------------------------------------------------------- what the receiver holds

  predicate GenuineMessage(m: Incoming, sent: seq<Message>) {
    && m.seqNum < |sent|
    && m.kind == sent[m.seqNum].kind
    && m.msgLen == |sent[m.seqNum].body|
    && forall p <- m.content :: p < m.msgLen && m.content[p] == sent[m.seqNum].body[p]
  }

  predicate GenuineRing(r: Receiver, sent: seq<Message>) {
    forall i :: 0 <= i < |r.slots| && r.slots[i].Some? ==> GenuineMessage(r.slots[i].value, sent)
  }

  predicate Roomy(limits: Limits, sent: seq<Message>) {
    forall k :: 0 <= k < |sent| ==> |sent[k].body| <= limits.maxMessageLen
  }

  // Why genuine traffic can still end the connection.
  predicate MayAlert(alert: Option<Alert>) {
    alert.None? || alert == Some(InternalError) || alert == Some(UnexpectedMessage)
  }

  lemma FragmentKeepsGenuine(r: Receiver, limits: Limits, f: Fragment, sent: seq<Message>)
    requires RingOk(r) && GenuineRing(r, sent) && Genuine(f, sent) && Roomy(limits, sent)
    ensures GenuineRing(HandleFragment(r, limits, f).r, sent)
    ensures MayAlert(HandleFragment(r, limits, f).alert)
  {
  }

  lemma {:induction false} RecordKeepsGenuine(r: Receiver, limits: Limits, record: seq<byte>, sent: seq<Message>)
    requires RingOk(r) && GenuineRing(r, sent) && GenuineRecord(record, sent) && Roomy(limits, sent)
    ensures GenuineRing(HandleRecord(r, limits, record).r, sent)
    ensures MayAlert(HandleRecord(r, limits, record).alert)
    decreases |record|
  {
    hide HandleFragment, ParseFragment, RingOk, GenuineRing, Genuine, Roomy;
    RingSize(r);
    if record != [] {
      var p := ParseFragment(record).value;
      FragmentKeepsGenuine(r, limits, p.fragment, sent);
      FragmentKeepsRing(r, limits, p.fragment) by {
        GenuineFits(p.fragment, sent);
      }
      RingSize(HandleFragment(r, limits, p.fragment).r);
      RecordKeepsGenuine(HandleFragment(r, limits, p.fragment).r, limits, p.rest, sent);
    }
  }

  // ---------------------------------------------------------------- whole runs

  // Everything that arrives was cut from what was sent, and the receiver takes messages so long.
  predicate GenuineEvent(e: Event, sent: seq<Message>) {
    e.Arrives? ==> GenuineRecord(e.record, sent) && Roomy(e.limits, sent)
  }

  predicate GenuineRun(events: seq<Event>, sent: seq<Message>) {
    forall k :: 0 <= k < |events| ==> GenuineEvent(events[k], sent)
  }

  predicate GenuineState(s: State, sent: seq<Message>) {
    && GenuineRing(s.r, sent)
    && (forall k :: 0 <= k < |s.delivered| ==> GenuineMessage(s.delivered[k], sent))
    && MayAlert(s.failed)
  }

  lemma {:induction false} RunIsGenuine(events: seq<Event>, sent: seq<Message>)
    requires GenuineRun(events, sent)
    ensures GenuineState(Run(events), sent)
  {
    hide GenuineMessage, RingOk, HandleRecord, CurrentComplete;
    if events != [] {
      var before, e := events[..|events| - 1], events[|events| - 1];
      RunIsGenuine(before, sent);
      assert GenuineEvent(e, sent);
      var s := Run(before);
      RingSize(s.r);
      if e.Arrives? {
        RecordKeepsGenuine(s.r, e.limits, e.record, sent);
      } else if CurrentComplete(s.r) {
        NextKeepsGenuine(s.r, sent);
      }
    }
  }

  lemma NextKeepsGenuine(r: Receiver, sent: seq<Message>)
    requires GenuineRing(r, sent) && RingOk(r) && CurrentComplete(r)
    ensures GenuineMessage(At(r, r.readSeq).value, sent)
    ensures GenuineRing(NextMessage(r), sent)
  {
  }

  /**
   The receiver's transcript is the sender's, as far as it goes: in every run over genuine
   fragments the messages delivered, rebuilt headers and bodies, are the finished messages sent, in
   order and each once.
   */
  lemma {:induction false} ReceivedAsSent(events: seq<Event>, sent: seq<Message>)
    requires AllSendable(sent) && GenuineRun(events, sent)
    ensures |Run(events).delivered| <= |sent|
    ensures forall k :: 0 <= k < |Run(events).delivered| ==>
              Complete(Run(events).delivered[k]) &&
              Raw(Run(events).delivered[k]) == Finished(sent[k], k)
    ensures MayAlert(Run(events).failed)
  {
    hide Run, GenuineRun, GenuineMessage, Sendable, Raw, Finished;
    RunIsGenuine(events, sent);
    DeliveredInOrder(events);
    var delivered := Run(events).delivered;
    if |delivered| > |sent| {
      NumberInRange(delivered[|sent|], sent);
    }
    forall k | 0 <= k < |delivered|
      ensures Complete(delivered[k]) && Raw(delivered[k]) == Finished(sent[k], k)
    {
      NumberInRange(delivered[k], sent);
      WholeIsFinished(delivered[k], sent);
    }
  }

  lemma WholeIsFinished(m: Incoming, sent: seq<Message>)
    requires GenuineMessage(m, sent) && Complete(m)
    ensures Raw(m) == Finished(sent[m.seqNum], m.seqNum)
  {
    assert Body(m) == sent[m.seqNum].body;
  }

  lemma NumberInRange(m: Incoming, sent: seq<Message>)
    requires GenuineMessage(m, sent)
    ensures m.seqNum < |sent|
  {
  }

  // ---------------------------------------------------------------- what a sender emits

  // The transcript of the sender holds the finished messages.
  predicate Transcript(transcript: seq<seq<byte>>, sent: seq<Message>) {
    |transcript| == |sent| && forall k :: 0 <= k < |sent| ==> transcript[k] == Finished(sent[k], k)
  }

  lemma RecordedIsSent(msg: F.Outgoing, transcript: seq<seq<byte>>, sent: seq<Message>)
    requires AllSendable(sent) && Transcript(transcript, sent) && F.IsRecorded(msg, transcript)
    ensures F.Whole(msg).h.seqNum < |sent|
    ensures var whole := F.Whole(msg); var k := whole.h.seqNum;
            whole == Fragment(WholeHeader(sent[k].kind, |sent[k].body|, k), sent[k].body)
  {
    hide F.WholeMessage, Finished;
    var k :| 0 <= k < |transcript| && transcript[k] == msg.data && k % U16 == F.Whole(msg).h.seqNum;
    F.FinishedIsWhole(sent[k], k);
  }

  /**
   Whatever rooms the packets had, every record of a flight carries genuine fragments only, one in
   each handshake record.
   */
  lemma {:induction false} EmittedIsGenuine(
    msgs: seq<F.Outgoing>, cursor: F.Cursor, records: seq<F.Record>,
    transcript: seq<seq<byte>>, sent: seq<Message>, k: nat)
    requires AllSendable(sent) && Transcript(transcript, sent)
    requires F.CursorOk(msgs, cursor) && F.Recorded(msgs, transcript)
    requires F.Emits(msgs, cursor, records).Some?
    requires k < |records| && !records[k].isCcs
    ensures GenuineRecord(records[k].payload, sent)
    decreases |records|
  {
    hide ParseFragment, Sendable, AllSendable, Transcript, Genuine, F.WholeMessage;
    if k > 0 {
      var next := F.Advance(msgs, cursor, records[0]).value;
      EmittedIsGenuine(msgs, next, records[1..], transcript, sent, k - 1);
    } else {
      var msg, payload := msgs[cursor.written], records[0].payload;
      var f := ParseFragment(payload).value.fragment;
      assert F.IsRecorded(msg, transcript);
      RecordedIsSent(msg, transcript, sent);
      CutIsGenuine(f, F.Whole(msg), cursor.offset, sent) by {
        assert WellFormed(f);
      }
      assert GenuineRecord([], sent);
    }
  }

  lemma CutIsGenuine(f: Fragment, whole: Fragment, offset: nat, sent: seq<Message>)
    requires WellFormed(f) && F.CutAt(f, whole, offset) && whole.h.seqNum < |sent|
    requires var k := whole.h.seqNum;
             whole == Fragment(WholeHeader(sent[k].kind, |sent[k].body|, k), sent[k].body)
    ensures Genuine(f, sent)
  {
  }

  // A stream that gets through a message names it and carries each octet of it.
  lemma {:induction false} StreamCovers(
    msgs: seq<F.Outgoing>, cursor: F.Cursor, records: seq<F.Record>, i: nat, p: nat) returns (k: nat)
    requires F.CursorOk(msgs, cursor) && F.Emits(msgs, cursor, records) == Some(F.Cursor(|msgs|, 0))
    requires cursor.written <= i < |msgs| && !msgs[i].isCcs
    requires i == cursor.written ==> cursor.offset <= p
    requires p < |F.Whole(msgs[i]).body| || p == 0
    ensures k < |records| && !records[k].isCcs
    ensures Mentions(Fragments(records[k].payload), F.Whole(msgs[i]).h.seqNum)
    ensures p < |F.Whole(msgs[i]).body| ==>
              CoversOne(Fragments(records[k].payload), F.Whole(msgs[i]).h.seqNum, p)
    decreases |records|
  {
    hide ParseFragment, F.WholeMessage;
    var next := F.Advance(msgs, cursor, records[0]).value;
    if i == cursor.written && (next.written > i || p < next.offset) {
      k := 0;
      var g := ParseFragment(records[0].payload).value.fragment;
      NonemptyRecord(records[0].payload);
      assert Fragments(records[0].payload)[0] == g;
      assert p < |F.Whole(msgs[i]).body| ==> Covers(g, F.Whole(msgs[i]).h.seqNum, p);
    } else {
      var j := StreamCovers(msgs, next, records[1..], i, p);
      k := j + 1;
    }
  }

  lemma NonemptyRecord(record: seq<byte>)
    requires ParseFragment(record).Some?
    ensures record != []
  {
  }

  // ---------------------------------------------------------------- the whole way

  // The record arrived at some point at which message n was not ahead of the window.
  predicate Reached(events: seq<Event>, record: seq<byte>, n: nat) {
    events != [] &&
    var before, e := events[..|events| - 1], events[|events| - 1];
    Reached(before, record, n) ||
    (e.Arrives? && e.record == record && n < Run(before).r.readSeq + SSL_MAX_HANDSHAKE_FLIGHT)
  }

  lemma {:induction false} ReachedArrives(events: seq<Event>, record: seq<byte>, n: nat, p: nat)
    requires Reached(events, record, n)
    ensures CoversOne(Fragments(record), n, p) ==> Arrived(events, n, p)
    ensures Mentions(Fragments(record), n) ==> Heard(events, n)
  {
    hide Run, Fragments;
    if Reached(events[..|events| - 1], record, n) {
      ReachedArrives(events[..|events| - 1], record, n, p);
    }
  }

  ghost predicate AllReached(events: seq<Event>, records: seq<F.Record>, n: nat) {
    forall k :: 0 <= k < |records| && !records[k].isCcs ==> Reached(events, records[k].payload, n)
  }

  // Some complete sending of the flight.
  ghost predicate FlightSent(msgs: seq<F.Outgoing>, records: seq<F.Record>) {
    F.CursorOk(msgs, F.Cursor(0, 0)) && F.Emits(msgs, F.Cursor(0, 0), records) == Some(F.Cursor(|msgs|, 0))
  }

  // The flight holds finished messages, which are on the sender's transcript.
  ghost predicate FlightOf(msgs: seq<F.Outgoing>, transcript: seq<seq<byte>>, sent: seq<Message>) {
    AllSendable(sent) && Transcript(transcript, sent) && F.Recorded(msgs, transcript)
  }

  // Message i of the flight is the one the receiver reads next.
  ghost predicate WaitsFor(r: Receiver, msgs: seq<F.Outgoing>, i: nat)
    requires F.Sendings(msgs)
  {
    i < |msgs| && !msgs[i].isCcs && F.Whole(msgs[i]).h.seqNum == r.readSeq
  }

  // Some record that arrived while message n was not ahead of the window carries octet p of it.
  ghost predicate OctetReached(events: seq<Event>, n: nat, p: nat) {
    exists record :: Reached(events, record, n) && CoversOne(Fragments(record), n, p)
  }

  ghost predicate NumberReached(events: seq<Event>, n: nat) {
    exists record :: Reached(events, record, n) && Mentions(Fragments(record), n)
  }

  ghost predicate BodyReached(events: seq<Event>, n: nat, length: nat) {
    NumberReached(events, n) && forall p: nat :: p < length ==> OctetReached(events, n, p)
  }

  /**
   Nothing is lost for good: whatever sendings the records come from, and whatever the sizes of their
   packets were, once some record carried each octet of the message that the receiver waits for, it is
   complete and is the sender's, octet for octet.
   */
  lemma {:induction false} OctetsSuffice(events: seq<Event>, sent: seq<Message>)
    requires AllSendable(sent) && GenuineRun(events, sent) && Run(events).failed.None?
    requires Run(events).r.readSeq < |sent|
    requires BodyReached(events, Run(events).r.readSeq, |sent[Run(events).r.readSeq].body|)
    ensures var r := Run(events).r;
            CurrentComplete(r) && Raw(At(r, r.readSeq).value) == Finished(sent[r.readSeq], r.readSeq)
  {
    hide Run, Arrived, Heard, Fragments, ParseFragment, Raw, Finished, Reached, GenuineRun, Sendable;
    var r := Run(events).r;
    var n := r.readSeq;
    ReceivedAsSent(events, sent);
    assert |Run(events).delivered| < U16;
    AvailableWhenCovered(events);
    var first :| Reached(events, first, n) && Mentions(Fragments(first), n);
    ReachedArrives(events, first, n, 0);
    var m := At(r, n).value;
    CurrentIsGenuine(events, sent);
    forall p: nat | p < m.msgLen ensures Arrived(events, n, p) {
      assert OctetReached(events, n, p);
      var record :| Reached(events, record, n) && CoversOne(Fragments(record), n, p);
      ReachedArrives(events, record, n, p);
    }
    assert AllArrived(events, n, m.msgLen);
    WholeIsFinished(m, sent);
  }

  /**
   In particular when each record of some complete sending of the flight has arrived, in any order and
   among any other genuine traffic.
   */
  lemma {:induction false} FlightArrives(
    events: seq<Event>, msgs: seq<F.Outgoing>, records: seq<F.Record>,
    transcript: seq<seq<byte>>, sent: seq<Message>, i: nat)
    requires FlightSent(msgs, records) && FlightOf(msgs, transcript, sent)
    requires GenuineRun(events, sent) && Run(events).failed.None?
    requires WaitsFor(Run(events).r, msgs, i)
    requires AllReached(events, records, Run(events).r.readSeq)
    ensures CurrentComplete(Run(events).r)
    ensures Raw(At(Run(events).r, Run(events).r.readSeq).value) == msgs[i].data
  {
    hide Run, Fragments, ParseFragment, F.WholeMessage, Raw, Finished, Reached, F.Emits, GenuineRun, Sendable;
    var n := Run(events).r.readSeq;
    assert F.IsRecorded(msgs[i], transcript);
    RecordedIsSent(msgs[i], transcript, sent);
    DataIsFinished(msgs[i], transcript, sent);
    var k0 := StreamCovers(msgs, F.Cursor(0, 0), records, i, 0);
    assert Reached(events, records[k0].payload, n);
    forall p: nat | p < |sent[n].body| ensures OctetReached(events, n, p) {
      var k := StreamCovers(msgs, F.Cursor(0, 0), records, i, p);
      assert Reached(events, records[k].payload, n);
    }
    OctetsSuffice(events, sent);
  }

  lemma {:induction false} FirstIsAccepted(m: Message, limits: Limits)
    requires Sendable(m) && |m.body| <= limits.maxMessageLen
    ensures RingOk(EMPTY)
    ensures HandleRecord(EMPTY, limits, Finished(m, 0)).alert.None?
    ensures HandleRecord(EMPTY, limits, Finished(m, 0)).r.readSeq == 0
  {
    hide ParseFragment, Encode, Stored;
    var whole := Fragment(WholeHeader(m.kind, |m.body|, 0), m.body);
    ParseEncode(whole, []);
    assert Encode(whole) + [] == Finished(m, 0);
    EncodeLength(whole);
    RecordKeepsRing(EMPTY, limits, Finished(m, 0));
    assert HandleFragment(EMPTY, limits, whole).alert.None?;
    assert HandleRecord(HandleFragment(EMPTY, limits, whole).r, limits, []).alert.None?;
  }

  // The simplest case: one message, sent as one record that arrives.
  lemma {:induction false} OneRecordArrives(m: Message, limits: Limits)
    requires Sendable(m) && |m.body| <= limits.maxMessageLen
    ensures var r := Run([Arrives(Finished(m, 0), limits)]).r;
            CurrentComplete(r) && r.readSeq == 0 && Raw(At(r, r.readSeq).value) == Finished(m, 0)
  {
    hide ParseFragment, Encode, F.WholeMessage, HandleFragment, Raw;
    var data := Finished(m, 0);
    var events := [Arrives(data, limits)];
    var whole := Fragment(WholeHeader(m.kind, |m.body|, 0), m.body);
    var msgs, records := [F.Outgoing(data, 0, false)], [F.Record(false, 0, data, |data|)];
    F.FinishedIsWhole(m, 0);
    OneFragmentRecord(whole, [], [m]) by {
      assert m.body[..|m.body|] == m.body;
    }
    assert data == Encode(whole) + [];
    ParseEncode(whole, []);
    assert m.body[0..|m.body|] == m.body;
    assert records[1..] == [];
    assert F.Sendings(msgs) && F.CursorOk(msgs, F.Cursor(0, 0));
    assert F.Advance(msgs, F.Cursor(0, 0), records[0]) == Some(F.Cursor(1, 0));
    assert events[..0] == [];
    assert [data][0] == msgs[0].data;
    FirstIsAccepted(m, limits);
    assert F.Emits(msgs, F.Cursor(1, 0), []) == Some(F.Cursor(1, 0));
    assert F.Emits(msgs, F.Cursor(0, 0), records) == F.Emits(msgs, F.Cursor(1, 0), records[1..]);
    assert F.IsRecorded(msgs[0], [data]);
    FlightArrives(events, msgs, records, [data], [m], 0);
  }

  lemma {:induction false} CurrentIsGenuine(events: seq<Event>, sent: seq<Message>)
    requires GenuineRun(events, sent) && At(Run(events).r, Run(events).r.readSeq).Some?
    ensures var m := At(Run(events).r, Run(events).r.readSeq).value;
            GenuineMessage(m, sent) && m.seqNum == Run(events).r.readSeq
  {
    hide Run, GenuineRun;
    RunIsGenuine(events, sent);
    CurrentIs(Run(events).r);
  }

  lemma DataIsFinished(msg: F.Outgoing, transcript: seq<seq<byte>>, sent: seq<Message>)
    requires AllSendable(sent) && Transcript(transcript, sent) && F.IsRecorded(msg, transcript)
    ensures F.Whole(msg).h.seqNum < |sent|
    ensures msg.data == Finished(sent[F.Whole(msg).h.seqNum], F.Whole(msg).h.seqNum)
  {
    hide F.WholeMessage, Finished;
    RecordedIsSent(msg, transcript, sent);
    var k :| 0 <= k < |transcript| && transcript[k] == msg.data && k % U16 == F.Whole(msg).h.seqNum;
  }

  // ---------------------------------------------------------------- from the sender's object

  // The messages that a transcript of whole, numbered messages consists of.
  function SentMessages(transcript: seq<seq<byte>>): (sent: seq<Message>)
    ensures |sent| == |transcript|
  {
    seq(|transcript|, k requires 0 <= k < |transcript| =>
      var f := F.WholeMessage(transcript[k], 0);
      if f.Some? then Message(f.value.h.kind, f.value.body) else Message(0, []))
  }

  // They are what the sender finished: its invariant provides what the results above assume.
  lemma WriterTranscript(transcript: seq<seq<byte>>)
    requires F.Numbered(transcript) && |transcript| < U16
    ensures AllSendable(SentMessages(transcript)) && Transcript(transcript, SentMessages(transcript))
  {
    hide F.WholeMessage, Finished;
    var sent := SentMessages(transcript);
    forall k | 0 <= k < |sent| ensures Sendable(sent[k]) && transcript[k] == Finished(sent[k], k) {
      assert F.IsNumbered(transcript[k], k);
      OneWhole(transcript[k], k);
    }
  }

  lemma OneWhole(data: seq<byte>, k: nat)
    requires F.IsNumbered(data, k) && k < U16
    ensures var f := F.WholeMessage(data, 0).value;
            var m := Message(f.h.kind, f.body);
            Sendable(m) && data == Finished(m, k)
  {
    hide ParseFragment, Encode;
    EncodeParse(data);
    var f := ParseFragment(data).value.fragment;
    assert Encode(f) + [] == Encode(f);
    assert f == Fragment(WholeHeader(f.h.kind, |f.body|, k), f.body);
  }

  /**
   End to end: when a retransmission of a valid writer has gone through and its records arrive, in any
   order and among any fragments of the writer's messages, the receiver has the message it waits for,
   octet for octet as the writer stored it; and all those records are such fragments.
   */
  lemma {:induction false} RetransmissionArrives(w: F.FlightWriter, packets: seq<seq<F.Record>>, events: seq<Event>,
                                                 i: nat)
    requires w.Valid() && |w.transcript| < U16
    requires F.CursorOk(w.messages, F.Cursor(0, 0))
    requires F.Emits(w.messages, F.Cursor(0, 0), F.Flatten(packets)) == Some(F.Cursor(|w.messages|, 0))
    requires GenuineRun(events, SentMessages(w.transcript)) && Run(events).failed.None?
    requires WaitsFor(Run(events).r, w.messages, i)
    requires AllReached(events, F.Flatten(packets), Run(events).r.readSeq)
    ensures CurrentComplete(Run(events).r)
    ensures Raw(At(Run(events).r, Run(events).r.readSeq).value) == w.messages[i].data
    ensures forall k :: 0 <= k < |F.Flatten(packets)| && !F.Flatten(packets)[k].isCcs ==>
              GenuineRecord(F.Flatten(packets)[k].payload, SentMessages(w.transcript))
  {
    hide Run, GenuineRun, GenuineRecord, AllSendable, Transcript, F.Emits, F.Recorded, F.Numbered, Reached, Raw,
         F.WholeMessage;
    WriterTranscript(w.transcript);
    var sent, records := SentMessages(w.transcript), F.Flatten(packets);
    FlightArrives(events, w.messages, records, w.transcript, sent, i);
    forall k | 0 <= k < |records| && !records[k].isCcs ensures GenuineRecord(records[k].payload, sent) {
      EmittedIsGenuine(w.messages, F.Cursor(0, 0), records, w.transcript, sent, k);
    }
  }

  // ---------------------------------------------------------------- a whole flight

  function Nexts(m: nat): seq<Event> {
    if m == 0 then [] else Nexts(m - 1) + [Next]
  }

  // Message n is one of the flight.
  ghost predicate InFlight(msgs: seq<F.Outgoing>, n: nat)
    requires F.Sendings(msgs)
  {
    exists i :: 0 <= i < |msgs| && !msgs[i].isCcs && F.Whole(msgs[i]).h.seqNum == n
  }

  lemma {:induction false} NextRun(events: seq<Event>)
    ensures Run(events + [Next]) == Step(Run(events), Next)
  {
    assert (events + [Next])[..|events|] == events;
  }

  lemma StillReached(events: seq<Event>, records: seq<F.Record>, n: nat)
    requires AllReached(events, records, n)
    ensures AllReached(events + [Next], records, n)
  {
    assert (events + [Next])[..|events|] == events;
    hide Run;
    forall k | 0 <= k < |records| && !records[k].isCcs ensures Reached(events + [Next], records[k].payload, n) {
      assert Reached(events, records[k].payload, n);
    }
  }

  /**
   A whole flight is delivered: when every record of a complete sending has arrived while the m messages
   from the awaited one on were inside the window, m calls deliver them all, without an alert.
   */
  lemma {:induction false} WholeFlightDelivered(
    events: seq<Event>, msgs: seq<F.Outgoing>, records: seq<F.Record>,
    transcript: seq<seq<byte>>, sent: seq<Message>, m: nat)
    requires FlightSent(msgs, records) && FlightOf(msgs, transcript, sent)
    requires GenuineRun(events, sent) && Run(events).failed.None?
    requires forall n :: Run(events).r.readSeq <= n < Run(events).r.readSeq + m ==>
               InFlight(msgs, n) && AllReached(events, records, n)
    ensures var s, s' := Run(events), Run(events + Nexts(m));
            && s'.failed.None? && |s'.delivered| == |s.delivered| + m
            && s'.r.readSeq == s.r.readSeq + m && s.delivered <= s'.delivered
    ensures GenuineRun(events + Nexts(m), sent)
    ensures forall n :: Run(events).r.readSeq + m <= n && AllReached(events, records, n) ==>
            AllReached(events + Nexts(m), records, n)
    decreases m
  {
    hide Run, F.Emits, F.WholeMessage, Transcript, F.Recorded, InFlight, AllReached, FlightOf;
    if m == 0 {
      assert events + Nexts(0) == events;
    } else {
      var before := events + Nexts(m - 1);
      var n := Run(events).r.readSeq + (m - 1);
      assert events + Nexts(m) == before + [Next];
      StillTrue(events, msgs, records, m);
      WholeFlightDelivered(events, msgs, records, transcript, sent, m - 1);
      assert InFlight(msgs, n) && AllReached(before, records, n);
      DeliverOne(before, msgs, records, transcript, sent, n);
      forall k: nat | Run(events).r.readSeq + m <= k && AllReached(events, records, k)
        ensures AllReached(before + [Next], records, k)
      {
        StillReached(before, records, k);
      }
    }
  }

  lemma {:induction false} StillTrue(events: seq<Event>, msgs: seq<F.Outgoing>, records: seq<F.Record>, m: nat)
    requires F.Sendings(msgs) && m > 0
    requires forall n :: Run(events).r.readSeq <= n < Run(events).r.readSeq + m ==>
               InFlight(msgs, n) && AllReached(events, records, n)
    ensures forall n :: Run(events).r.readSeq <= n < Run(events).r.readSeq + (m - 1) ==>
              InFlight(msgs, n) && AllReached(events, records, n)
    ensures var n := Run(events).r.readSeq + (m - 1); InFlight(msgs, n) && AllReached(events, records, n)
  {
  }

  lemma {:induction false} DeliverOne(events: seq<Event>, msgs: seq<F.Outgoing>, records: seq<F.Record>,
                   transcript: seq<seq<byte>>, sent: seq<Message>, n: nat)
    requires FlightSent(msgs, records) && FlightOf(msgs, transcript, sent)
    requires GenuineRun(events, sent) && Run(events).failed.None? && Run(events).r.readSeq == n
    requires InFlight(msgs, n) && AllReached(events, records, n)
    ensures var s, s' := Run(events), Run(events + [Next]);
            && s'.failed.None? && |s'.delivered| == |s.delivered| + 1
            && s'.r.readSeq == n + 1 && s.delivered <= s'.delivered
    ensures GenuineRun(events + [Next], sent)
  {
    hide Run, F.Emits, F.WholeMessage, F.Recorded, AllReached, CurrentComplete, GenuineRun, Raw, Finished, AllSendable;
    var i :| 0 <= i < |msgs| && !msgs[i].isCcs && F.Whole(msgs[i]).h.seqNum == n;
    FlightArrives(events, msgs, records, transcript, sent, i);
    NextRun(events);
    assert F.IsRecorded(msgs[i], transcript) by {
      RecordedAt(msgs, transcript, i);
    }
    RecordedIsSent(msgs[i], transcript, sent);
    assert n + 1 < U16 by {
      Fewer(sent);
    }
    NextIsGenuine(events, sent);
  }

  lemma Fewer(sent: seq<Message>)
    requires AllSendable(sent)
    ensures |sent| < U16
  {
  }

  lemma NextIsGenuine(events: seq<Event>, sent: seq<Message>)
    requires GenuineRun(events, sent)
    ensures GenuineRun(events + [Next], sent)
  {
  }

  lemma RecordedAt(msgs: seq<F.Outgoing>, transcript: seq<seq<byte>>, i: nat)
    requires F.Recorded(msgs, transcript) && i < |msgs| && !msgs[i].isCcs
    ensures F.IsRecorded(msgs[i], transcript)
  {
  }

  // ---------------------------------------------------------------- when nothing ends the connection

  // Every fragment is below a number.
  predicate Below(fs: seq<Fragment>, n: nat) {
    fs == [] || (fs[0].h.seqNum < n && Below(fs[1..], n))
  }

  lemma FragmentIsAccepted(r: Receiver, limits: Limits, f: Fragment, sent: seq<Message>)
    requires RingOk(r) && GenuineRing(r, sent) && Genuine(f, sent) && Roomy(limits, sent)
    requires limits.rEpoch != 1 && f.h.seqNum < r.readSeq + SSL_MAX_HANDSHAKE_FLIGHT
    ensures HandleFragment(r, limits, f).alert.None?
  {
    hide WellFormed, Complete, Stored;
    FragmentKeepsGenuine(r, limits, f, sent);
  }

  lemma {:induction false} RecordIsAccepted(r: Receiver, limits: Limits, record: seq<byte>, sent: seq<Message>)
    requires RingOk(r) && GenuineRing(r, sent) && GenuineRecord(record, sent) && Roomy(limits, sent)
    requires limits.rEpoch != 1 && Below(Fragments(record), r.readSeq + SSL_MAX_HANDSHAKE_FLIGHT)
    ensures HandleRecord(r, limits, record).alert.None?
    decreases |record|
  {
    hide HandleFragment, ParseFragment, RingOk, GenuineRing, Genuine, Roomy;
    RingSize(r);
    if record != [] {
      var p := ParseFragment(record).value;
      assert Fragments(record)[0] == p.fragment && Fragments(record)[1..] == Fragments(p.rest);
      FragmentKeepsGenuine(r, limits, p.fragment, sent);
      FragmentIsAccepted(r, limits, p.fragment, sent);
      FragmentKeepsRing(r, limits, p.fragment) by {
        GenuineFits(p.fragment, sent);
      }
      RingSize(HandleFragment(r, limits, p.fragment).r);
      RecordIsAccepted(HandleFragment(r, limits, p.fragment).r, limits, p.rest, sent);
    }
  }

  // No record arrives in epoch 1, and none carries a message as far ahead as the window is wide.
  predicate Paced(events: seq<Event>) {
    events == [] ||
    var before, e := events[..|events| - 1], events[|events| - 1];
    Paced(before) &&
    (e.Arrives? ==>
     e.limits.rEpoch != 1 && Below(Fragments(e.record), Run(before).r.readSeq + SSL_MAX_HANDSHAKE_FLIGHT))
  }

  // Then genuine traffic never ends the connection.
  lemma {:induction false} PacedNeverFails(events: seq<Event>, sent: seq<Message>)
    requires GenuineRun(events, sent) && Paced(events)
    ensures Run(events).failed.None?
  {
    hide GenuineRing, GenuineRecord, HandleRecord, RingOk, CurrentComplete, Fragments, Roomy;
    if events != [] {
      var before, e := events[..|events| - 1], events[|events| - 1];
      assert GenuineEvent(e, sent);
      PacedNeverFails(before, sent);
      RunIsGenuine(before, sent);
      RingSize(Run(before).r);
      if e.Arrives? {
        RecordIsAccepted(Run(before).r, e.limits, e.record, sent);
      }
    }
  }
}
