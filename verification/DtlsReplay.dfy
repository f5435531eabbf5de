/**
 The DTLS replay window (section 4.1.2.6 of RFC 6347): a 64-bit map of the last 64 sequence
 numbers, and what it guarantees over whole runs of record arrivals and epoch changes.
 */
module DtlsReplay {
  import opened Bytes
  import opened Words

  const WINDOW_SIZE := 64

  // ---------------------------------------------------------------- sequence numbers

  type Sequence = s: seq<byte> | |s| == 8 witness [0, 0, 0, 0, 0, 0, 0, 0]

  lemma {:induction false} BigEndianBound(input: seq<byte>)
    ensures BigEndian(input) < Pow2(8 * |input|)
  {
    if input != [] {
      BigEndianBound(input[..|input| - 1]);
      Pow2Adds(8 * |input| - 8, 8);
      assert Pow2(8) == 256;
    }
  }

  lemma {:induction false} BigEndianInjective(a: seq<byte>, b: seq<byte>)
    requires |a| == |b| && BigEndian(a) == BigEndian(b)
    ensures a == b
  {
    if a != [] {
      var n := |a| - 1;
      var x: nat, y: nat := BigEndian(a[..n]), BigEndian(b[..n]);
      assert x * 256 + a[n] == y * 256 + b[n];
      BigEndianInjective(a[..n], b[..n]);
      assert a == a[..n] + [a[n]] && b == b[..n] + [b[n]];
    }
  }

  // The source's loop of shifts and ors in a 64-bit word.
  method ToU64Be(input: Sequence) returns (ret: nat)
    ensures ret == BigEndian(input) && ret < Pow2(64)
  {
    ret := 0;
    var i := 0;
    assert input[..0] == [];
    while i < 8
      invariant 0 <= i <= 8
      invariant ret == BigEndian(input[..i])
    {
      AppendOctet(input, i);
      ret := Or(Shl(64, ret, 8), input[i]);
      i := i + 1;
    }
    assert input[..8] == input;
    BigEndianBound(input);
  }

  lemma AppendOctet(input: Sequence, i: nat)
    requires i < 8
    ensures BigEndian(input[..i + 1]) == Or(Shl(64, BigEndian(input[..i]), 8), input[i])
  {
    var ret := BigEndian(input[..i]);
    assert input[..i + 1][..i] == input[..i];
    BigEndianBound(input[..i]);
    assert Pow2(8) == 256;
    NoOverflow(ret, 8 * i);
    OrDisjoint(ret, 8, input[i]);
  }

  lemma {:induction false} NoOverflow(ret: nat, k: nat)
    requires ret < Pow2(k) && k <= 56
    ensures Shl(64, ret, 8) == ret * Pow2(8)
  {
    Pow2Grows(k, 56);
    Pow2Adds(56, 8);
    assert Pow2(8) == 256;
    Small(ret * 256, Pow2(64));
  }

  lemma Small(a: nat, b: nat)
    requires a < b
    ensures a % b == a
  {
  }

  // The first two octets of a record's sequence number are its epoch.
  function EpochOf(s: Sequence): (e: nat)
    ensures e < 0x1_0000
  {
    var high: int, low: int := s[0], s[1];
    high * 256 + low
  }

  // So the epoch is the top of the 64-bit number, whose other 48 bits count the records of the epoch.
  lemma {:induction false} EpochIsTop(s: Sequence)
    ensures EpochOf(s) == BigEndian(s) / Pow2(48)
  {
    BigEndianSplit(s, 2);
    BigEndianBound(s[2..]);
    assert s[..2][..1] == [s[0]] && [s[0]][..0] == [] && BigEndian([s[0]]) == s[0];
    Quotient(EpochOf(s), Pow2(48), BigEndian(s[2..]));
  }

  lemma {:induction false} BigEndianSplit(s: seq<byte>, k: nat)
    requires k <= |s|
    ensures BigEndian(s) == BigEndian(s[..k]) * Pow2(8 * (|s| - k)) + BigEndian(s[k..])
    decreases |s|
  {
    var n := |s| - 1;
    if k == |s| {
      assert s[..k] == s;
    } else {
      BigEndianSplit(s[..n], k);
      assert s[..n][..k] == s[..k] && s[k..][..n - k] == s[..n][k..];
      Pow2Adds(8 * (n - k), 8);
      assert Pow2(8) == 256;
      OneMoreOctet(BigEndian(s[..k]), Pow2(8 * (n - k)), BigEndian(s[..n][k..]), s[n]);
    }
  }

  lemma OneMoreOctet(high: nat, p: nat, low: nat, octet: nat)
    ensures (high * p + low) * 256 + octet == high * (p * 256) + (low * 256 + octet)
  {
  }

  lemma Quotient(q: nat, d: nat, r: nat)
    requires r < d
    ensures (q * d + r) / d == q
  {
    var x := q * d + r;
    SameQuotient(q, x / d, d, r, x % d);
  }

  lemma {:induction false} SameQuotient(a: nat, b: nat, d: nat, r: nat, s: nat)
    requires a * d + r == b * d + s && r < d && s < d
    ensures a == b
  {
    if a != 0 && b != 0 {
      assert a * d == (a - 1) * d + d && b * d == (b - 1) * d + d;
      SameQuotient(a - 1, b - 1, d, r, s);
    }
  }

  // ---------------------------------------------------------------- the window

  datatype Window = Window(bits: nat, max: nat)

  const EMPTY_WINDOW := Window(0, 0)

  predicate ShouldDiscard(w: Window, n: nat) {
    n <= w.max && (w.max - n >= WINDOW_SIZE || And(w.bits, Pow2(w.max - n)) != 0)
  }

  // The window slides up to a new maximum, losing what falls out.
  function Slide(w: Window, n: nat): Window {
    if n <= w.max then w
    else Window(if n - w.max >= WINDOW_SIZE then 0 else Shl(64, w.bits, n - w.max), n)
  }

  function Mark(w: Window, n: nat): Window
    requires n <= w.max
  {
    if w.max - n < WINDOW_SIZE then w.(bits := Or(w.bits, Pow2(w.max - n))) else w
  }

  function Record(w: Window, n: nat): Window {
    Mark(Slide(w, n), n)
  }

  // Bit i is set exactly when the number i below the maximum has been recorded.
  ghost predicate Exact(w: Window, recorded: set<nat>) {
    && (forall n <- recorded :: n <= w.max)
    && forall i: nat :: i < WINDOW_SIZE ==> Bit(w.bits, i) == (i <= w.max && w.max - i in recorded)
  }

  lemma EmptyIsExact()
    ensures Exact(EMPTY_WINDOW, {})
  {
    forall i: nat | i < WINDOW_SIZE ensures !Bit(0, i) {
      ZeroBits(i);
    }
  }

  lemma SlideIsExact(w: Window, recorded: set<nat>, n: nat)
    requires Exact(w, recorded)
    ensures Exact(Slide(w, n), recorded)
  {
    hide Bit, Shl, Pow2;
    if n > w.max {
      var w' := Slide(w, n);
      forall i: nat | i < WINDOW_SIZE ensures Bit(w'.bits, i) == (i <= n && n - i in recorded) {
        if n - w.max >= WINDOW_SIZE {
          ZeroBits(i);
        } else {
          ShlBits(64, w.bits, n - w.max, i);
        }
      }
    }
  }

  // Recording a number, stale or not, keeps the map exact.
  lemma RecordIsExact(w: Window, recorded: set<nat>, n: nat)
    requires Exact(w, recorded)
    ensures Exact(Record(w, n), recorded + {n})
  {
    hide Bit, Shl, Or, Pow2;
    SlideIsExact(w, recorded, n);
    var s, w' := Slide(w, n), Record(w, n);
    if s.max - n < WINDOW_SIZE {
      forall i: nat | i < WINDOW_SIZE
        ensures Bit(w'.bits, i) == (i <= s.max && s.max - i in recorded + {n})
      {
        OrBits(s.bits, Pow2(s.max - n), i);
        PowerBits(s.max - n, i);
      }
    }
  }

  // A number is discarded exactly when it was recorded or lies below the window.
  lemma DiscardIsExact(w: Window, recorded: set<nat>, n: nat)
    requires Exact(w, recorded)
    ensures ShouldDiscard(w, n) <==> n in recorded || n + WINDOW_SIZE <= w.max
  {
    hide Bit, And, Pow2;
    if n <= w.max && w.max - n < WINDOW_SIZE {
      TestBit(w.bits, w.max - n);
      assert Bit(w.bits, w.max - n) == (n in recorded);
    }
  }

  // ---------------------------------------------------------------- the run

  datatype Reader = Reader(rEpoch: nat, window: Window)

  const INITIAL := Reader(0, EMPTY_WINDOW)

  // A record arrives with its sequence number; plain is the length of what the AEAD opens it to,
  // if it does. Or the connection installs the next read state.
  datatype Event = Arrive(sequence: Sequence, plain: Option<nat>) | NextEpoch

  datatype Outcome = Discard | Overflow | Recorded

  const SSL3_RT_MAX_PLAIN_LENGTH := 16384

  function Judge(r: Reader, sequence: Sequence, plain: Option<nat>): Outcome {
    if EpochOf(sequence) != r.rEpoch || ShouldDiscard(r.window, BigEndian(sequence)) then Discard
    else if plain.None? then Discard
    else if plain.value > SSL3_RT_MAX_PLAIN_LENGTH then Overflow
    else Recorded
  }

  // The epoch is a 16-bit counter.
  function Step(r: Reader, e: Event): Reader {
    match e
    case NextEpoch => Reader((r.rEpoch + 1) % 0x1_0000, EMPTY_WINDOW)
    case Arrive(sequence, plain) =>
      if Judge(r, sequence, plain).Recorded? then
        r.(window := Record(r.window, BigEndian(sequence)))
      else r
  }

  function Run(events: seq<Event>): Reader {
    if events == [] then INITIAL
    else Step(Run(events[..|events| - 1]), events[|events| - 1])
  }

  // The sequence numbers that reached the recording step, in order.
  function Log(events: seq<Event>): seq<Sequence> {
    if events == [] then []
    else
      var before, e := events[..|events| - 1], events[|events| - 1];
      if e.Arrive? && Judge(Run(before), e.sequence, e.plain).Recorded? then
        Log(before) + [e.sequence]
      else Log(before)
  }

  function EpochChanges(events: seq<Event>): nat {
    if events == [] then 0
    else EpochChanges(events[..|events| - 1]) + (if events[|events| - 1].NextEpoch? then 1 else 0)
  }

  // The part of the log that the current window can know: what was recorded since the last change.
  function LogSinceChange(events: seq<Event>): seq<Sequence> {
    if events == [] then []
    else
      var before, e := events[..|events| - 1], events[|events| - 1];
      if e.NextEpoch? then []
      else if Judge(Run(before), e.sequence, e.plain).Recorded? then LogSinceChange(before) + [e.sequence]
      else LogSinceChange(before)
  }

  // The numbers in a log.
  function Numbers(log: seq<Sequence>): set<nat> {
    set k | 0 <= k < |log| :: BigEndian(log[k])
  }

  // What holds after every run, however many epochs have passed.
  ghost predicate Invariant(r: Reader, changes: nat, since: seq<Sequence>) {
    && r.rEpoch == changes % 0x1_0000
    && Exact(r.window, Numbers(since))
    && (forall k :: 0 <= k < |since| ==> EpochOf(since[k]) == r.rEpoch)
    && (since == [] ==> r.window.max == 0)
    && (since != [] ==> r.window.max in Numbers(since))
  }

  lemma {:induction false} RecordKeepsInvariant(r: Reader, changes: nat, since: seq<Sequence>, s: Sequence)
    requires Invariant(r, changes, since) && EpochOf(s) == r.rEpoch
    ensures Invariant(r.(window := Record(r.window, BigEndian(s))), changes, since + [s])
  {
    hide BigEndian, Exact, EpochOf, Or, Shl, Pow2;
    var since' := since + [s];
    assert since'[|since|] == s && forall k :: 0 <= k < |since| ==> since'[k] == since[k];
    assert Numbers(since') == Numbers(since) + {BigEndian(s)};
    RecordIsExact(r.window, Numbers(since), BigEndian(s));
  }

  lemma {:induction false} RunInvariant(events: seq<Event>)
    ensures Invariant(Run(events), EpochChanges(events), LogSinceChange(events))
  {
    hide Exact, Numbers, EpochOf, BigEndian, ShouldDiscard, Record;
    if events == [] {
      StartInvariant(0);
    } else {
      var before, e := events[..|events| - 1], events[|events| - 1];
      RunInvariant(before);
      match e
      case NextEpoch => StartInvariant(EpochChanges(events));
      case Arrive(sequence, plain) =>
        if Judge(Run(before), sequence, plain).Recorded? {
          RecordKeepsInvariant(Run(before), EpochChanges(before), LogSinceChange(before), sequence);
        }
    }
  }

  lemma StartInvariant(changes: nat)
    ensures Invariant(Reader(changes % 0x1_0000, EMPTY_WINDOW), changes, [])
  {
    EmptyIsExact();
    assert Numbers([]) == {};
  }

  /**
   Exactly which records are discarded, in every run: those that are not authentic, not of the current
   epoch (the number of changes modulo 2^16), recorded already since the last change, or 64 or more below
   a number recorded since. Of the others, those of up to 16384 octets are recorded.
   */
  lemma {:induction false} RecordedExactly(events: seq<Event>, s: Sequence, plain: Option<nat>)
    ensures Judge(Run(events), s, plain).Discard?
       <==> plain.None?
            || EpochOf(s) != EpochChanges(events) % 0x1_0000
            || s in LogSinceChange(events)
            || exists t <- LogSinceChange(events) :: BigEndian(t) >= BigEndian(s) + 64
    ensures Judge(Run(events), s, plain).Overflow? ==> plain.value > 16384
    ensures Judge(Run(events), s, plain).Recorded? ==> plain.value <= 16384
  {
    hide Run, LogSinceChange, EpochChanges, ShouldDiscard, EpochOf, BigEndian;
    RunInvariant(events);
    var w, since := Run(events).window, LogSinceChange(events);
    DiscardIsExact(w, Numbers(since), BigEndian(s));
    InNumbers(since, s);
    forall t <- since ensures BigEndian(t) <= w.max {
      InNumbers(since, t);
    }
    if since != [] {
      var k :| 0 <= k < |since| && BigEndian(since[k]) == w.max;
      assert since[k] in since;
    }
  }

  lemma {:induction false} InNumbers(log: seq<Sequence>, s: Sequence)
    ensures BigEndian(s) in Numbers(log) <==> s in log
  {
    hide BigEndian;
    if BigEndian(s) in Numbers(log) {
      var k :| 0 <= k < |log| && BigEndian(log[k]) == BigEndian(s);
      BigEndianInjective(log[k], s);
    }
  }

  // Every entry is new, and epochs never go back.
  predicate OnceInOrder(log: seq<Sequence>) {
    forall j, k :: 0 <= j < k < |log| ==> log[j] != log[k] && EpochOf(log[j]) <= EpochOf(log[k])
  }

  // Before the counter wraps, the log is what passed epochs left, then what this one recorded.
  ghost predicate Split(log: seq<Sequence>, since: seq<Sequence>, changes: nat) {
    && |since| <= |log| && log[|log| - |since|..] == since
    && (forall k :: 0 <= k < |log| - |since| ==> EpochOf(log[k]) < changes)
    && (forall k :: 0 <= k < |log| ==> EpochOf(log[k]) <= changes)
  }

  /**
   At most once over whole runs: whatever arrives, in whatever order and however often, no sequence
   number is recorded twice and the epochs recorded never go back, before the epoch counter wraps.
   */
  lemma {:induction false} AtMostOnce(events: seq<Event>)
    requires EpochChanges(events) < 0x1_0000
    ensures OnceInOrder(Log(events))
    ensures Split(Log(events), LogSinceChange(events), EpochChanges(events))
  {
    hide BigEndian, EpochOf, Judge;
    if events != [] {
      var before, e := events[..|events| - 1], events[|events| - 1];
      AtMostOnce(before);
      if e.Arrive? && Judge(Run(before), e.sequence, e.plain).Recorded? {
        NewEntry(before, e);
      }
    }
  }

  lemma {:induction false} NewEntry(before: seq<Event>, e: Event)
    requires EpochChanges(before) < 0x1_0000 && e.Arrive? && Judge(Run(before), e.sequence, e.plain).Recorded?
    requires OnceInOrder(Log(before)) && Split(Log(before), LogSinceChange(before), EpochChanges(before))
    ensures OnceInOrder(Log(before) + [e.sequence])
    ensures Split(Log(before) + [e.sequence], LogSinceChange(before) + [e.sequence], EpochChanges(before))
  {
    hide BigEndian, EpochOf, Run, Log, LogSinceChange, EpochChanges, ShouldDiscard;
    RecordedExactly(before, e.sequence, e.plain);
    var log, since, s := Log(before), LogSinceChange(before), e.sequence;
    forall k | 0 <= k < |log| ensures log[k] != s {
      if k >= |log| - |since| {
        assert log[k] == log[|log| - |since|..][k - (|log| - |since|)];
      }
    }
  }

  /**
   After a change nothing of an earlier epoch is recorded: whatever follows a run, its log only grows,
   by records of epochs that the run had reached at the least.
   */
  lemma {:induction false} NoneOfEarlierEpochs(before: seq<Event>, after: seq<Event>)
    requires EpochChanges(before + after) < 0x1_0000
    ensures Log(before) <= Log(before + after) && EpochChanges(before) <= EpochChanges(before + after)
    ensures forall k :: |Log(before)| <= k < |Log(before + after)| ==>
              EpochChanges(before) <= EpochOf(Log(before + after)[k])
    decreases |after|
  {
    hide BigEndian, EpochOf, Judge;
    if after == [] {
      assert before + after == before;
    } else {
      var init, e := after[..|after| - 1], after[|after| - 1];
      var all := before + after;
      assert all[..|all| - 1] == before + init && all[|all| - 1] == e;
      NoneOfEarlierEpochs(before, init);
      if e.Arrive? && Judge(Run(before + init), e.sequence, e.plain).Recorded? {
        IsOfThisEpoch(before + init, e);
      }
    }
  }

  lemma {:induction false} IsOfThisEpoch(events: seq<Event>, e: Event)
    requires EpochChanges(events) < 0x1_0000 && e.Arrive? && Judge(Run(events), e.sequence, e.plain).Recorded?
    ensures EpochOf(e.sequence) == EpochChanges(events)
  {
    hide BigEndian, EpochOf, Run, LogSinceChange, EpochChanges, ShouldDiscard;
    RecordedExactly(events, e.sequence, e.plain);
  }

  // ---------------------------------------------------------------- the limit of the guarantee

  function Changes(n: nat): (events: seq<Event>) {
    if n == 0 then [] else Changes(n - 1) + [NextEpoch]
  }

  lemma {:induction false} ChangesOnly(first: Event, n: nat)
    ensures Log([first] + Changes(n)) == Log([first])
    ensures Run([first] + Changes(n)).rEpoch == (Run([first]).rEpoch + n) % 0x1_0000
    ensures n > 0 ==> Run([first] + Changes(n)).window == EMPTY_WINDOW
  {
    hide Judge, Record, Run, Log;
    if n == 0 {
      assert [first] + Changes(0) == [first];
      EpochIsShort([first]);
    } else {
      var before := [first] + Changes(n - 1);
      ChangesOnly(first, n - 1);
      assert [first] + Changes(n) == before + [NextEpoch];
      OneChange(before);
    }
  }

  lemma {:induction false} OneChange(before: seq<Event>)
    ensures Log(before + [NextEpoch]) == Log(before)
    ensures Run(before + [NextEpoch]) == Step(Run(before), NextEpoch)
  {
    assert (before + [NextEpoch])[..|before|] == before;
  }

  lemma {:induction false} EpochIsShort(events: seq<Event>)
    ensures Run(events).rEpoch < 0x1_0000
  {
    if events != [] {
      EpochIsShort(events[..|events| - 1]);
    }
  }

  /**
   Why the number of changes is bounded there: the counter wraps. Of a run that records one number,
   changes the epoch n times and receives that number again, the number is recorded twice exactly when
   n is a positive multiple of 65536.
   */
  lemma {:induction false} ReplayAcrossEpochs(s: Sequence, n: nat)
    requires EpochOf(s) == 0
    ensures Log([Arrive(s, Some(0))] + Changes(n) + [Arrive(s, Some(0))])
         == if n > 0 && n % 0x1_0000 == 0 then [s, s] else [s]
  {
    var a := Arrive(s, Some(0));
    FirstIsRecorded(s);
    ChangesOnly(a, n);
    var before := [a] + Changes(n);
    assert (before + [a])[..|before + [a]| - 1] == before;
    if n > 0 {
      EmptyIsExact();
      DiscardIsExact(EMPTY_WINDOW, {}, BigEndian(s));
    } else {
      assert before == [a];
      EmptyIsExact();
      RecordIsExact(EMPTY_WINDOW, {}, BigEndian(s));
      DiscardIsExact(Run([a]).window, {BigEndian(s)}, BigEndian(s));
    }
  }

  lemma {:induction false} FirstIsRecorded(s: Sequence)
    requires EpochOf(s) == 0
    ensures Log([Arrive(s, Some(0))]) == [s]
    ensures Run([Arrive(s, Some(0))]) == Reader(0, Record(EMPTY_WINDOW, BigEndian(s)))
  {
  }

  // ---------------------------------------------------------------- the source's objects

  class Bitmap {
    var bits: nat
    var maxSeqNum: nat

    ghost function Value(): Window
      reads this
    {
      Window(bits, maxSeqNum)
    }

    constructor ()
      ensures Value() == EMPTY_WINDOW
    {
      bits, maxSeqNum := 0, 0;
    }

    method Discards(seqNum: Sequence) returns (discard: bool)
      ensures discard == ShouldDiscard(Value(), BigEndian(seqNum))
    {
      hide And, Or, Pow2, Shl, BigEndian;
      var seqNumU := ToU64Be(seqNum);
      if seqNumU > maxSeqNum {
        return false;
      }
      var idx := maxSeqNum - seqNumU;
      return idx >= WINDOW_SIZE || And(bits, Pow2(idx)) != 0;
    }

    method Receive(seqNum: Sequence)
      modifies this
      ensures Value() == Record(old(Value()), BigEndian(seqNum))
    {
      hide And, Or, Pow2, Shl, BigEndian;
      var seqNumU := ToU64Be(seqNum);
      if seqNumU > maxSeqNum {
        var shift := seqNumU - maxSeqNum;
        if shift >= WINDOW_SIZE {
          bits := 0;
        } else {
          bits := Shl(64, bits, shift);
        }
        maxSeqNum := seqNumU;
      }
      var idx := maxSeqNum - seqNumU;
      if idx < WINDOW_SIZE {
        bits := Or(bits, Pow2(idx));
      }
    }
  }

  class ReadState {
    var rEpoch: nat
    const bitmap: Bitmap

    ghost function Value(): Reader
      reads this, bitmap
    {
      Reader(rEpoch, bitmap.Value())
    }

    constructor ()
      ensures Value() == INITIAL && fresh(bitmap)
    {
      rEpoch := 0;
      bitmap := new Bitmap();
    }

    // The epoch and replay part of opening a record.
    method OpenRecord(sequence: Sequence, plain: Option<nat>) returns (outcome: Outcome)
      modifies bitmap
      ensures outcome == Judge(old(Value()), sequence, plain)
      ensures Value() == Step(old(Value()), Arrive(sequence, plain))
    {
      var discard := bitmap.Discards(sequence);
      if EpochOf(sequence) != rEpoch || discard {
        return Discard;
      }
      if plain.None? {
        return Discard;
      }
      if plain.value > SSL3_RT_MAX_PLAIN_LENGTH {
        return Overflow;
      }
      bitmap.Receive(sequence);
      return Recorded;
    }

    method SetReadState()
      modifies this, bitmap
      ensures Value() == Step(old(Value()), NextEpoch)
    {
      rEpoch := (rEpoch + 1) % 0x1_0000;
      bitmap.bits, bitmap.maxSeqNum := 0, 0;
    }
  }
}
