/**
 The receiver as the source keeps it: an array of pointers to fragments under reassembly, changed
 in place. Every method is proved to do what the receiver's functions on values say.
 */
module DtlsReader {
  import opened Bytes
  import opened DtlsMessages
  import opened DtlsReassembly
  import opened DtlsReceiver

  function Owned(f: HmFragment?): set<object>
    reads f
  {
    if f == null then {}
    else {f, f.data} + (if f.reassembly == null then {} else {f.reassembly})
  }

  ghost predicate SameElsewhere(was: Receiver, now: Receiver, idx: nat) {
    && |now.slots| == |was.slots|
    && forall i :: 0 <= i < |now.slots| && i != idx ==> now.slots[i] == was.slots[i]
  }

  lemma OneSlot(was: Receiver, now: Receiver, idx: nat)
    requires SameElsewhere(was, now, idx) && idx < |now.slots|
    ensures now.slots == was.slots[idx := now.slots[idx]]
  {
  }

  class HandshakeReader {
    var readSeq: nat
    const incoming: array<HmFragment?>
    ghost var Repr: set<object>

    ghost predicate Valid()
      reads this, Repr
    {
      && this in Repr && incoming in Repr && incoming.Length == SSL_MAX_HANDSHAKE_FLIGHT
      && (forall i :: 0 <= i < incoming.Length ==> SlotValid(i))
      && (forall i, j :: 0 <= i < j < incoming.Length ==> Apart(i, j))
    }

    ghost predicate SlotValid(i: nat)
      requires i < incoming.Length && incoming in Repr
      reads this, Repr
    {
      incoming[i] != null ==>
        && incoming[i] in Repr
        && Owned(incoming[i]) <= Repr - {this, incoming}
        && incoming[i].Valid()
    }

    ghost predicate Apart(i: nat, j: nat)
      requires i < incoming.Length && j < incoming.Length && incoming in Repr
      reads this, Repr
    {
      incoming[i] != null && incoming[j] != null && incoming[i] in Repr && incoming[j] in Repr ==>
        Owned(incoming[i]) !! Owned(incoming[j])
    }

    ghost function SlotValue(i: nat): Option<Incoming>
      requires i < incoming.Length && incoming in Repr && SlotValid(i)
      reads this, Repr
    {
      if incoming[i] == null then None else Some(incoming[i].Value())
    }

    ghost function Value(): (r: Receiver)
      requires Valid()
      reads this, Repr
      ensures |r.slots| == SSL_MAX_HANDSHAKE_FLIGHT
      ensures forall i :: 0 <= i < incoming.Length ==> r.slots[i] == SlotValue(i)
    {
      Receiver(readSeq, [SlotValue(0), SlotValue(1), SlotValue(2), SlotValue(3),
                         SlotValue(4), SlotValue(5), SlotValue(6)])
    }

    constructor ()
      ensures Valid() && Value() == EMPTY && fresh(Repr)
    {
      readSeq := 0;
      incoming := new HmFragment?[SSL_MAX_HANDSHAKE_FLIGHT](_ => null);
      new;
      Repr := {this, incoming};
    }

    // Nothing but one slot and what it owns has changed.
    twostate predicate OnlySlot(idx: nat)
      requires old(Valid()) && old(Repr) <= Repr
      reads this, Repr
    {
      && idx < incoming.Length
      && (forall i :: 0 <= i < incoming.Length && i != idx ==> incoming[i] == old(incoming[i]))
      && unchanged(old(Repr) - {this, incoming} - old(Owned(incoming[idx])))
    }

    twostate lemma OthersUntouched(idx: nat)
      requires old(Valid()) && old(Repr) <= Repr && OnlySlot(idx)
      ensures forall i :: 0 <= i < incoming.Length && i != idx ==>
                && incoming[i] == old(incoming[i]) && SlotValid(i) && SlotValue(i) == old(SlotValue(i))
                && Owned(incoming[i]) !! old(Owned(incoming[idx])) && Owned(incoming[i]) <= old(Repr)
      ensures forall i, j :: 0 <= i < j < incoming.Length && i != idx && j != idx ==> Apart(i, j)
    {
      hide HmFragment.Valid, HmFragment.Value, Value;
      forall i | 0 <= i < incoming.Length && i != idx
        ensures SlotValid(i) && SlotValue(i) == old(SlotValue(i))
        ensures Owned(incoming[i]) == old(Owned(incoming[i]))
        ensures Owned(incoming[i]) !! old(Owned(incoming[idx]))
        ensures Owned(incoming[i]) <= old(Repr)
      {
        assert old(SlotValid(i)) && old(SlotValid(idx));
        assert old(if i < idx then Apart(i, idx) else Apart(idx, i));
        var f := incoming[i];
        if f != null {
          assert f in old(Owned(f)) && f.data in old(Owned(f));
          assert unchanged(f) && unchanged(f.data);
          if f.reassembly != null {
            assert f.reassembly in old(Owned(f));
            assert unchanged(f.reassembly);
          }
        }
      }
      forall i, j | 0 <= i < j < incoming.Length && i != idx && j != idx ensures Apart(i, j) {
        assert old(Apart(i, j));
      }
    }

    // So the ring is valid, with the other messages as they were.
    twostate lemma SlotChanged(idx: nat)
      requires old(Valid()) && old(Repr) <= Repr && OnlySlot(idx) && SlotValid(idx)
      requires Owned(incoming[idx]) * old(Repr) <= old(Owned(incoming[idx]))
      ensures old(Value()).readSeq == old(readSeq)
      ensures Valid() && Value() == Receiver(readSeq, old(Value()).slots[idx := SlotValue(idx)])
    {
      OthersUntouched(idx);
      hide SlotValid, SlotValue, OnlySlot, Owned;
      forall i, j | 0 <= i < j < incoming.Length ensures Apart(i, j) {
      }
      OneSlot(old(Value()), Value(), idx);
    }

    // The first fragment of a message.
    method Insert(h: Header) returns (frag: HmFragment)
      requires Valid() && Fits(h)
      modifies this`Repr, incoming
      ensures Valid() && fresh(Repr - old(Repr))
      ensures frag == incoming[h.seqNum % SSL_MAX_HANDSHAKE_FLIGHT]
      ensures Value() == Put(old(Value()), h.seqNum, Incoming(h.kind, h.seqNum, h.msgLen, map[]))
    {
      hide HmFragment.Valid, Fits, Value;
      var idx := h.seqNum % SSL_MAX_HANDSHAKE_FLIGHT;
      frag := new HmFragment(h);
      incoming[idx] := frag;
      Repr := Repr + Owned(frag);
      SlotChanged(idx);
    }

    // dtls1_get_incoming_message
    method GetIncomingMessage(h: Header) returns (frag: HmFragment?, alert: Alert)
      requires Valid() && Fits(h)
      modifies this`Repr, incoming
      ensures Valid() && fresh(Repr - old(Repr))
      ensures match IncomingMessage(old(Value()), h)
              case Refused(a) => frag == null && alert == a && Value() == old(Value())
              case Found(m) =>
                && frag != null && frag == incoming[h.seqNum % SSL_MAX_HANDSHAKE_FLIGHT]
                && readSeq == old(readSeq) && SameElsewhere(old(Value()), Value(), h.seqNum % SSL_MAX_HANDSHAKE_FLIGHT)
                && At(Value(), h.seqNum) == Some(m)
    {
      hide HmFragment.Valid, Fits, Value, HmFragment.Value, Valid;
      Shape();
      alert := InternalError;
      if h.seqNum < readSeq || h.seqNum - readSeq >= SSL_MAX_HANDSHAKE_FLIGHT {
        return null, InternalError;
      }
      var idx := h.seqNum % SSL_MAX_HANDSHAKE_FLIGHT;
      frag := incoming[idx];
      if frag != null {
        if frag.kind != h.kind || frag.msgLen != h.msgLen {
          return null, IllegalParameter;
        }
        return;
      }
      frag := Insert(h);
      Shape();
    }

    // What the value says of the fields.
    lemma Shape()
      requires Valid()
      ensures Value().readSeq == readSeq && incoming.Length == SSL_MAX_HANDSHAKE_FLIGHT
      ensures this in Repr && incoming in Repr
      ensures forall i :: 0 <= i < incoming.Length ==>
                if incoming[i] == null then Value().slots[i] == None
                else
                  && SlotValid(i) && incoming[i].Valid()
                  && Value().slots[i] == Some(incoming[i].Value())
                  && incoming[i].kind == Value().slots[i].value.kind
                  && incoming[i].msgLen == Value().slots[i].value.msgLen
    {
    }

    // Copy a part of the body of the message in a slot, unless it is complete.
    method StoreInSlot(idx: nat, f: Fragment)
      requires Valid() && idx < incoming.Length && incoming[idx] != null
      requires |f.body| == f.h.fragLen && f.h.fragOff + f.h.fragLen <= incoming[idx].msgLen
      modifies Repr
      ensures Valid() && Repr == old(Repr)
      ensures Value()
              == old(Value()).(slots := old(Value()).slots[idx := Some(Stored(old(Value()).slots[idx].value, f))])
    {
      hide HmFragment.Valid, HmFragment.Value, Value, Complete, Received;
      var frag := incoming[idx];
      assert SlotValid(idx);
      frag.CompleteWithoutMap();
      if frag.reassembly == null {
        assert Value().slots == Value().slots[idx := SlotValue(idx)];
        return;
      }
      frag.Store(f.h.fragOff, f.body);
      assert Owned(frag) <= old(Owned(frag));
      assert SlotValue(idx) == Some(Stored(old(Value()).slots[idx].value, f));
      SlotChanged(idx);
    }

    // One turn of the loop of dtls1_open_handshake.
    method OpenFragment(limits: Limits, f: Fragment) returns (alert: Option<Alert>)
      requires Valid() && WellFormed(f)
      modifies Repr
      ensures Valid() && fresh(Repr - old(Repr))
      ensures Handled(Value(), alert) == HandleFragment(old(Value()), limits, f)
    {
      hide Valid, Value, HmFragment.Valid, HmFragment.Value, Stored;
      Shape();
      var h := f.h;
      if h.fragOff > h.msgLen || h.fragOff + h.fragLen > h.msgLen || h.msgLen > limits.maxMessageLen {
        return Some(IllegalParameter);
      }
      if limits.rEpoch == 1 && h.seqNum != readSeq {
        return Some(UnexpectedMessage);
      }
      if h.seqNum < readSeq || h.seqNum > readSeq + SSL_MAX_HANDSHAKE_FLIGHT {
        return None;
      }
      var frag, refusal := GetIncomingMessage(h);
      if frag == null {
        return Some(refusal);
      }
      Shape();
      StoreInSlot(h.seqNum % SSL_MAX_HANDSHAKE_FLIGHT, f);
      alert := None;
      OneSlot(old(Value()), Value(), h.seqNum % SSL_MAX_HANDSHAKE_FLIGHT);
    }

    // The handshake records of dtls1_open_handshake.
    method OpenHandshake(limits: Limits, record: seq<byte>) returns (alert: Option<Alert>)
      requires Valid()
      modifies Repr
      ensures Valid() && fresh(Repr - old(Repr))
      ensures Handled(Value(), alert) == HandleRecord(old(Value()), limits, record)
    {
      hide Valid, Value, HandleFragment, ParseFragment;
      var cbs := record;
      while cbs != []
        invariant Valid() && fresh(Repr - old(Repr))
        invariant HandleRecord(old(Value()), limits, record) == HandleRecord(Value(), limits, cbs)
        decreases |cbs|
      {
        var parsed := ParseFragment(cbs);
        if parsed.None? {
          return Some(DecodeError);
        }
        var refusal := OpenFragment(limits, parsed.value.fragment);
        if refusal.Some? {
          return refusal;
        }
        cbs := parsed.value.rest;
      }
      return None;
    }

    // dtls1_get_message: the whole message, header included, if it is complete.
    method GetMessage() returns (raw: Option<seq<byte>>)
      requires Valid()
      ensures raw.Some? <==> CurrentComplete(Value())
      ensures raw.Some? ==> raw.value == Raw(At(Value(), readSeq).value)
    {
      hide Valid, Value, HmFragment.Valid, HmFragment.Value, Raw;
      Shape();
      var frag := incoming[readSeq % SSL_MAX_HANDSHAKE_FLIGHT];
      if frag != null {
        frag.CompleteWithoutMap();
        if frag.reassembly == null {
          frag.RawIsData();
          return Some(frag.data[..]);
        }
      }
      return None;
    }

    // dtls1_next_message
    method NextMessage()
      requires Valid() && CurrentComplete(Value())
      modifies this, incoming
      ensures Valid() && Repr == old(Repr)
      ensures Value() == DtlsReceiver.NextMessage(old(Value()))
    {
      hide HmFragment.Valid, HmFragment.Value, Value;
      var idx := readSeq % SSL_MAX_HANDSHAKE_FLIGHT;
      Shape();
      incoming[idx] := null;
      readSeq := (readSeq + 1) % U16;
      SlotChanged(idx);
    }
  }
}
