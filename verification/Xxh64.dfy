/**
 The 64-bit xxHash: the one-shot function and the streaming state. The structure is that of the
 32-bit hash with 32-byte stripes, but the digest decides between the long and the short form by
 the wrapped total length and finalizes by that length, not by the buffer fill.
 */
module Xxh64 {
  import opened Bytes
  import opened XxhBytes

  const WRAP_64 := 0x1_0000_0000_0000_0000

  function Rotl(x: bv64, r: bv64): bv64
    requires r <= 64
  {
    (x << r) | (x >> (64 - r))
  }

  function ReadLE32(data: seq<bv8>, p: nat): bv64
    requires p + 4 <= |data|
  {
    data[p] as bv64 | (data[p + 1] as bv64 << 8) | (data[p + 2] as bv64 << 16) | (data[p + 3] as bv64 << 24)
  }

  function Join(low: bv64, high: bv64): bv64 { low | (high << 32) }

  function ReadLE64(data: seq<bv8>, p: nat): bv64
    requires p + 8 <= |data|
  {
    Join(ReadLE32(data, p), ReadLE32(data, p + 4))
  }

  // The arithmetic of the mixing steps; ScaleN multiplies by the source's N-th prime.
  function Sum(a: bv64, b: bv64): bv64 { a + b }
  function Xor(a: bv64, b: bv64): bv64 { a ^ b }
  function Scale1(x: bv64): bv64 { x * 11400714785074694791 }
  function Scale2(x: bv64): bv64 { x * 14029467366897019727 }
  function Scale3(x: bv64): bv64 { x * 1609587929392839161 }
  function Scale5(x: bv64): bv64 { x * 2870177450012600261 }
  function XorShift29(x: bv64): bv64 { x ^ (x >> 29) }
  function XorShift32(x: bv64): bv64 { x ^ (x >> 32) }
  function XorShift33(x: bv64): bv64 { x ^ (x >> 33) }

  function Round(acc: bv64, input: bv64): bv64 {
    Scale1(Rotl(Sum(acc, Scale2(input)), 31))
  }

  function MergeRound(acc: bv64, val: bv64): bv64 {
    Sum(Scale1(Xor(acc, Round(0, val))), 9650029242287828579)
  }

  function Avalanche(h: bv64): bv64 {
    XorShift32(Scale3(XorShift29(Scale2(XorShift33(h)))))
  }

  // ---------------------------------------------------------------- finalization

  function Mix1(h: bv64, b: bv8): bv64 {
    Scale1(Rotl(Xor(h, Scale5(b as bv64)), 11))
  }

  function Mix4(h: bv64, word: bv64): bv64 {
    Sum(Scale2(Rotl(Xor(h, Scale1(word)), 23)), 1609587929392839161)
  }

  function Mix8(h: bv64, word: bv64): bv64 {
    Sum(Scale1(Rotl(Xor(h, Round(0, word)), 27)), 9650029242287828579)
  }

  datatype Op = Process8 | Process4 | Process1 {
    function Width(): nat { if Process8? then 8 else if Process4? then 4 else 1 }
  }

  function Size(ops: seq<Op>): nat {
    if ops == [] then 0 else ops[0].Width() + Size(ops[1..])
  }

  // The plain order of work on n bytes: eight at a time, then four if there are as many, then one
  // at a time.
  function Greedy(n: nat): seq<Op> {
    if n >= 8 then [Process8] + Greedy(n - 8)
    else if n >= 4 then [Process4] + Greedy(n - 4)
    else if n >= 1 then [Process1] + Greedy(n - 1)
    else []
  }

  // The switch of XXH64_finalize as the steps each case runs: those that fall through continue
  // with the steps of the case below them, the others end in a return.
  function Program(residue: nat): seq<Op>
    requires residue < 32
    decreases residue
  {
    match residue
    case 24 => [Process8] + Program(16)
    case 16 => [Process8] + Program(8)
    case 8 => [Process8]
    case 28 => [Process8] + Program(20)
    case 20 => [Process8] + Program(12)
    case 12 => [Process8] + Program(4)
    case 4 => [Process4]
    case 25 => [Process8] + Program(17)
    case 17 => [Process8] + Program(9)
    case 9 => [Process8, Process1]
    case 29 => [Process8] + Program(21)
    case 21 => [Process8] + Program(13)
    case 13 => [Process8] + Program(5)
    case 5 => [Process4, Process1]
    case 26 => [Process8] + Program(18)
    case 18 => [Process8] + Program(10)
    case 10 => [Process8, Process1, Process1]
    case 30 => [Process8] + Program(22)
    case 22 => [Process8] + Program(14)
    case 14 => [Process8] + Program(6)
    case 6 => [Process4, Process1, Process1]
    case 27 => [Process8] + Program(19)
    case 19 => [Process8] + Program(11)
    case 11 => [Process8, Process1, Process1, Process1]
    case 31 => [Process8] + Program(23)
    case 23 => [Process8] + Program(15)
    case 15 => [Process8] + Program(7)
    case 7 => [Process4] + Program(3)
    case 3 => [Process1] + Program(2)
    case 2 => [Process1] + Program(1)
    case 1 => [Process1] + Program(0)
    case 0 => []
  }

  const THREE_BYTES: seq<Op> := [Process1, Process1, Process1]

  lemma FallsThrough(n: nat)
    requires 12 <= n < 32
    ensures Program(n) == [Process8] + Program(n - 8)
  {
  }

  lemma EndsExplicitly(n: nat)
    requires n < 12
    ensures n < 4 ==> Program(n) == THREE_BYTES[..n]
    ensures 4 <= n < 8 ==> Program(n) == [Process4] + THREE_BYTES[..n - 4]
    ensures 8 <= n ==> Program(n) == [Process8] + THREE_BYTES[..n - 8]
  {
    assert Program(3) == [Process1] + Program(2) && Program(2) == [Process1] + Program(1) && Program(1) == [Process1];
  }

  lemma {:induction false} BytesInOrder(n: nat)
    requires n < 4
    ensures Greedy(n) == THREE_BYTES[..n]
  {
    if n >= 1 {
      BytesInOrder(n - 1);
    }
  }

  // Each of the 32 cases is the plain order.
  lemma {:induction false} ProgramIsGreedy(n: nat)
    requires n < 32
    ensures Program(n) == Greedy(n)
    decreases n
  {
    hide Program;
    if n >= 12 {
      FallsThrough(n);
      ProgramIsGreedy(n - 8);
    } else {
      EndsExplicitly(n);
      BytesInOrder(n % 4);
    }
  }

  lemma {:induction false} GreedySize(n: nat)
    ensures Size(Greedy(n)) == n
  {
    if n >= 1 {
      GreedySize(n - Greedy(n)[0].Width());
    }
  }

  function Apply(op: Op, h: bv64, data: seq<bv8>, p: nat): bv64
    requires p + op.Width() <= |data|
  {
    hide Mix1, Mix4, Mix8, ReadLE32, ReadLE64;
    match op
    case Process8 => Mix8(h, ReadLE64(data, p))
    case Process4 => Mix4(h, ReadLE32(data, p))
    case Process1 => Mix1(h, data[p])
  }

  function Run(h: bv64, data: seq<bv8>, p: nat, ops: seq<Op>): bv64
    requires p + Size(ops) <= |data|
    decreases |ops|
  {
    hide Apply;
    if ops == [] then h else Run(Apply(ops[0], h, data, p), data, p + ops[0].Width(), ops[1..])
  }

  // The last n bytes, from p.
  function Tail(h: bv64, data: seq<bv8>, p: nat, n: nat): bv64
    requires p + n <= |data|
  {
    hide Run;
    GreedySize(n);
    Run(h, data, p, Greedy(n))
  }

  // The tail step by step.
  lemma TailDone(h: bv64, data: seq<bv8>, p: nat)
    requires p <= |data|
    ensures Tail(h, data, p, 0) == h
  {
    hide Apply;
  }

  lemma GreedyStep(n: nat)
    requires n >= 1
    ensures Greedy(n) != [] && Greedy(n)[0] == if n >= 8 then Process8 else if n >= 4 then Process4 else Process1
    ensures Greedy(n)[1..] == Greedy(n - Greedy(n)[0].Width())
  {
    assert Greedy(n) == [Greedy(n)[0]] + Greedy(n - Greedy(n)[0].Width());
  }

  lemma TailLong(h: bv64, word: bv64, data: seq<bv8>, p: nat, n: nat)
    requires p + n <= |data| && n >= 8 && word == ReadLE64(data, p)
    ensures Tail(h, data, p, n) == Tail(Mix8(h, word), data, p + 8, n - 8)
  {
    hide Mix1, Mix4, Mix8, ReadLE32, ReadLE64, Greedy;
    GreedySize(n);
    GreedyStep(n);
  }

  lemma TailWord(h: bv64, word: bv64, data: seq<bv8>, p: nat, n: nat)
    requires p + n <= |data| && 4 <= n < 8 && word == ReadLE32(data, p)
    ensures Tail(h, data, p, n) == Tail(Mix4(h, word), data, p + 4, n - 4)
  {
    hide Mix1, Mix4, Mix8, ReadLE32, ReadLE64, Greedy;
    GreedySize(n);
    GreedyStep(n);
  }

  lemma TailByte(h: bv64, b: bv8, data: seq<bv8>, p: nat, n: nat)
    requires p + n <= |data| && 1 <= n < 4 && b == data[p]
    ensures Tail(h, data, p, n) == Tail(Mix1(h, b), data, p + 1, n - 1)
  {
    hide Mix1, Mix4, Mix8, ReadLE32, ReadLE64, Greedy;
    GreedySize(n);
    GreedyStep(n);
  }

  function Finalize(h: bv64, data: seq<bv8>, p: nat, len: nat): bv64
    requires p + len % 32 <= |data|
  {
    hide Run, Avalanche;
    ProgramIsGreedy(len % 32);
    GreedySize(len % 32);
    Avalanche(Run(h, data, p, Program(len % 32)))
  }

  lemma FinalizeIsTail(h: bv64, data: seq<bv8>, p: nat, len: nat)
    requires p + len % 32 <= |data|
    ensures Finalize(h, data, p, len) == Avalanche(Tail(h, data, p, len % 32))
  {
    hide Run, Avalanche, Program, Greedy;
    ProgramIsGreedy(len % 32);
    GreedySize(len % 32);
  }

  // The tail depends only on the bytes it reads.
  lemma {:induction false} SameRun(h: bv64, a: seq<bv8>, p: nat, b: seq<bv8>, q: nat, ops: seq<Op>)
    requires SameBytes(a, p, b, q, Size(ops))
    ensures Run(h, a, p, ops) == Run(h, b, q, ops)
    decreases |ops|
  {
    hide Mix1, Mix4, Mix8, ReadLE64, ReadLE32;
    if ops != [] {
      match ops[0] {
        case Process8 => SameLongWord(a, p, b, q, Size(ops));
        case Process4 => SameWord(a, p, b, q, Size(ops));
        case Process1 => assert a[p] == b[q];
      }
      var w := ops[0].Width();
      SameRun(Apply(ops[0], h, a, p), a, p + w, b, q + w, ops[1..]);
    }
  }

  lemma SameTail(h: bv64, a: seq<bv8>, p: nat, b: seq<bv8>, q: nat, n: nat)
    requires SameBytes(a, p, b, q, n)
    ensures Tail(h, a, p, n) == Tail(h, b, q, n)
  {
    hide Run, Greedy, SameBytes;
    GreedySize(n);
    SameRun(h, a, p, b, q, Greedy(n));
  }

  lemma SameLongWord(a: seq<bv8>, p: nat, b: seq<bv8>, q: nat, n: nat)
    requires 8 <= n && SameBytes(a, p, b, q, n)
    ensures ReadLE64(a, p) == ReadLE64(b, q)
  {
  }

  lemma SameWord(a: seq<bv8>, p: nat, b: seq<bv8>, q: nat, n: nat)
    requires 4 <= n && SameBytes(a, p, b, q, n)
    ensures ReadLE32(a, p) == ReadLE32(b, q)
  {
  }

  // ---------------------------------------------------------------- stripes

  datatype Lanes = Lanes(v1: bv64, v2: bv64, v3: bv64, v4: bv64)

  function InitLanes(seed: bv64): Lanes {
    Lanes(seed + 11400714785074694791 + 14029467366897019727, seed + 14029467366897019727, seed + 0,
          seed - 11400714785074694791)
  }

  function Stripe(l: Lanes, data: seq<bv8>, p: nat): Lanes
    requires p + 32 <= |data|
  {
    Lanes(Round(l.v1, ReadLE64(data, p)), Round(l.v2, ReadLE64(data, p + 8)),
          Round(l.v3, ReadLE64(data, p + 16)), Round(l.v4, ReadLE64(data, p + 24)))
  }

  // A whole number of stripes.
  predicate Aligned(m: nat) {
    m % 32 == 0
  }

  // The lanes after the first m bytes, a whole number of stripes.
  function Absorb(seed: bv64, data: seq<bv8>, m: nat): Lanes
    requires m <= |data| && Aligned(m)
  {
    if m == 0 then InitLanes(seed) else Stripe(Absorb(seed, data, m - 32), data, m - 32)
  }

  lemma SameStripe(l: Lanes, a: seq<bv8>, p: nat, b: seq<bv8>, q: nat)
    requires SameBytes(a, p, b, q, 32)
    ensures Stripe(l, a, p) == Stripe(l, b, q)
  {
    hide Round, ReadLE64;
    SameLongWord(a, p, b, q, 8);
    SameLongWord(a, p + 8, b, q + 8, 8);
    SameLongWord(a, p + 16, b, q + 16, 8);
    SameLongWord(a, p + 24, b, q + 24, 8);
  }

  lemma {:induction false} SameAbsorb(seed: bv64, a: seq<bv8>, b: seq<bv8>, m: nat)
    requires Aligned(m) && SameBytes(a, 0, b, 0, m)
    ensures Absorb(seed, a, m) == Absorb(seed, b, m)
    decreases m
  {
    hide Stripe, InitLanes;
    if m != 0 {
      SameAbsorb(seed, a, b, m - 32);
      SameStripe(Absorb(seed, a, m - 32), a, m - 32, b, m - 32);
    }
  }

  function Converge(l: Lanes): bv64 {
    var h := Sum(Sum(Sum(Rotl(l.v1, 1), Rotl(l.v2, 7)), Rotl(l.v3, 12)), Rotl(l.v4, 18));
    MergeRound(MergeRound(MergeRound(MergeRound(h, l.v1), l.v2), l.v3), l.v4)
  }

  // ---------------------------------------------------------------- the hash of a byte string

  function Stripes(n: nat): (m: nat)
    ensures m <= n < m + 32 && Aligned(m)
  {
    n / 32 * 32
  }

  lemma StripesRest(n: nat)
    ensures n - Stripes(n) == n % 32 == n % 32 % 32
  {
  }

  lemma StripesUnique(m: nat, n: nat)
    requires Aligned(m) && m <= n < m + 32
    ensures m == Stripes(n)
  {
  }

  function Word(n: nat): bv64
    requires n < WRAP_64
  {
    n as bv64
  }

  // The value handed to finalization: the lanes once there was a whole stripe, else the seed.
  function Start(large: bool, lanes: Lanes, seed: bv64, length: nat): bv64
    requires length < WRAP_64
  {
    Sum(if large then Converge(lanes) else Sum(seed, 2870177450012600261), Word(length))
  }

  function Hash64(seed: bv64, data: seq<bv8>): bv64 {
    var m := Stripes(|data|);
    Avalanche(Tail(Start(|data| >= 32, Absorb(seed, data, m), seed, |data| % WRAP_64), data, m, |data| - m))
  }

  // A length counter that has wrapped to less than a stripe forgets the other lanes.
  function ShortForm(seed: bv64, data: seq<bv8>): bv64 {
    var m := Stripes(|data|);
    Avalanche(Tail(Start(false, Absorb(seed, data, m), Absorb(seed, data, m).v3, |data| % WRAP_64), data, m,
                   |data| - m))
  }

  lemma AbsorbStep(seed: bv64, data: seq<bv8>, m: nat)
    requires Aligned(m) && m <= |data|
    ensures m == 0 ==> Absorb(seed, data, m) == InitLanes(seed)
    ensures m + 32 <= |data| ==> Absorb(seed, data, m + 32) == Stripe(Absorb(seed, data, m), data, m)
  {
    hide Stripe, InitLanes;
  }

  // XXH64_endian_align on a non-null input.
  method OneShot(input: seq<bv8>, seed: bv64) returns (h64: bv64)
    ensures h64 == Hash64(seed, input)
  {
    hide Absorb, Stripe, Start, Avalanche, Tail, Finalize, InitLanes, Stripes;
    var p := 0;
    var len := |input|;
    var l := InitLanes(seed);
    AbsorbStep(seed, input, 0);
    if len >= 32 {
      var limit := len - 32;
      while true
        invariant 0 <= p <= len - 32 && Aligned(p)
        invariant l == Absorb(seed, input, p)
        decreases len - p
      {
        AbsorbStep(seed, input, p);
        l := Stripe(l, input, p);
        p := p + 32;
        if p > limit {
          break;
        }
      }
    }
    StripesUnique(p, len);
    StripesRest(len);
    h64 := Start(len >= 32, l, seed, len % WRAP_64);
    FinalizeIsTail(h64, input, p, len);
    h64 := Finalize(h64, input, p, len);
  }

  // ---------------------------------------------------------------- streaming

  class Xxh64State {
    var totalLen: nat
    var lanes: Lanes  // v1, v2, v3, v4
    const mem64: array<bv8>
    var memsize: nat
    // Everything hashed since the last reset, and the seed of that reset.
    ghost var fed: seq<bv8>
    ghost var seed: bv64

    // The lanes have absorbed all whole stripes, the buffer holds the rest and the length is kept
    // modulo 2^64.
    ghost predicate Valid()
      reads this, mem64
    {
      && mem64.Length == 32
      && totalLen == |fed| % WRAP_64
      && Holding(fed)
    }

    // The state of lanes and buffer for a given input.
    ghost predicate Holding(data: seq<bv8>)
      requires mem64.Length == 32
      reads this`memsize, this`lanes, this`seed, mem64
    {
      && memsize == |data| - Stripes(|data|)
      && lanes == Absorb(seed, data, Stripes(|data|))
      && SameBytes(mem64[..], 0, data, Stripes(|data|), memsize)
    }

    constructor (seed: bv64)
      ensures Valid() && fed == [] && this.seed == seed && fresh(mem64)
    {
      totalLen, memsize := 0, 0;
      lanes := InitLanes(seed);
      mem64 := new bv8[32](i => 0);
      fed, this.seed := [], seed;
    }

    method Reset(seed: bv64)
      requires mem64.Length == 32
      modifies this
      ensures Valid() && fed == [] && this.seed == seed
    {
      totalLen, memsize := 0, 0;
      lanes := InitLanes(seed);
      fed, this.seed := [], seed;
    }

    // XXH64_update: None is a null pointer, which is refused.
    method Update(input: Option<seq<bv8>>) returns (ok: bool)
      requires Valid()
      modifies this, mem64
      ensures Valid() && seed == old(seed)
      ensures ok == input.Some?
      ensures fed == old(fed) + (if input.Some? then input.value else [])
    {
      hide Holding;
      if input.None? {
        assert fed + [] == fed;
        return false;
      }
      var data := input.value;
      var len := |data|;
      ok := true;
      LengthAdds(|fed|, len);
      totalLen := (totalLen + len % WRAP_64) % WRAP_64;
      if memsize + len < 32 {
        AppendToBuffer(data);
      } else {
        AbsorbInput(data);
      }
      fed := fed + data;
    }

    // "Fill in tmp buffer": the input does not complete a stripe.
    method AppendToBuffer(data: seq<bv8>)
      requires mem64.Length == 32 && Holding(fed) && memsize + |data| < 32
      modifies this`memsize, mem64
      ensures Holding(fed + data)
    {
      hide Absorb, Stripes, Aligned;
      ghost var all := fed + data;
      StripesUnique(Stripes(|fed|), |all|);
      forall i | 0 <= i < |data| {
        mem64[memsize + i] := data[i];
      }
      SameAbsorb(seed, fed, all, Stripes(|fed|));
      memsize := memsize + |data|;
    }

    // The input completes at least one stripe: the buffered one first, then those of the input
    // itself, and what remains goes to the buffer.
    method AbsorbInput(data: seq<bv8>)
      requires mem64.Length == 32 && Holding(fed) && memsize + |data| >= 32
      modifies this`memsize, this`lanes, mem64
      ensures Holding(fed + data)
    {
      hide Stripe, InitLanes, Stripes, SameBytes, Absorb, Aligned;
      ghost var all := fed + data;
      ghost var m := Stripes(|fed|);
      FedPrefix(fed, data, m);
      SameAbsorb(seed, fed, all, m);
      var p: nat := 0;
      if memsize != 0 {
        p := 32 - memsize;
        CompleteStripe(data, all, m);
        m := m + 32;
      }
      p, m := AbsorbWholeStripes(data, p, all, m);
      KeepRest(data, p, m);
    }

    // What is left of the input goes to the buffer.
    method KeepRest(data: seq<bv8>, p: nat, ghost m: nat)
      requires mem64.Length == 32 && p <= |data| < p + 32 && m == |fed| + p && Aligned(m)
      requires lanes == Absorb(seed, fed + data, m)
      modifies this`memsize, mem64
      ensures Holding(fed + data)
    {
      hide Stripes, SameBytes, Absorb, Aligned;
      ghost var all := fed + data;
      StripesUnique(m, |all|);
      memsize := |data| - p;
      SaveRest(data, p);
      FedSuffix(fed, data, p, |data| - p);
      SameBytesTransitive(mem64[..], 0, data, p, all, m, memsize);
    }

    method AbsorbWholeStripes(data: seq<bv8>, p0: nat, ghost all: seq<bv8>, ghost m0: nat)
      returns (p: nat, ghost m: nat)
      requires p0 <= |data| && all == fed + data && m0 == |fed| + p0 && Aligned(m0)
      requires lanes == Absorb(seed, all, m0)
      modifies this`lanes
      ensures p0 <= p <= |data| < p + 32 && m == |fed| + p && Aligned(m)
      ensures lanes == Absorb(seed, all, m)
    {
      hide Stripe, InitLanes, SameBytes, Absorb;
      p, m := p0, m0;
      while p + 32 <= |data|
        invariant p0 <= p <= |data| && m == |fed| + p && Aligned(m)
        invariant lanes == Absorb(seed, all, m)
      {
        FedSuffix(fed, data, p, 32);
        AbsorbStep(seed, all, m);
        SameStripe(lanes, data, p, all, m);
        lanes := Stripe(lanes, data, p);
        p, m := p + 32, m + 32;
      }
    }

    method CompleteStripe(data: seq<bv8>, ghost all: seq<bv8>, ghost m: nat)
      requires mem64.Length == 32 && 0 < memsize < 32 && 32 - memsize <= |data| && all == fed + data
      requires m + memsize == |fed| && Aligned(m) && lanes == Absorb(seed, all, m)
      requires SameBytes(mem64[..], 0, fed, m, memsize)
      modifies this`memsize, this`lanes, mem64
      ensures memsize == 0 && Aligned(m + 32) && lanes == Absorb(seed, all, m + 32)
    {
      hide Stripe, InitLanes;
      forall i | 0 <= i < 32 - memsize {
        mem64[memsize + i] := data[i];
      }
      SameStripe(lanes, mem64[..], 0, all, m);
      lanes := Stripe(lanes, mem64[..], 0);
      memsize := 0;
    }

    method SaveRest(data: seq<bv8>, p: nat)
      requires mem64.Length == 32 && p <= |data| < p + 32
      modifies mem64
      ensures SameBytes(mem64[..], 0, data, p, |data| - p)
    {
      forall i | 0 <= i < |data| - p {
        mem64[i] := data[p + i];
      }
    }

    // The long or short form is chosen by the wrapped length, so the digest is the hash of the
    // input unless the true length is past a multiple of 2^64 by less than one stripe. Then it is the
    // short form, with the third lane where the seed would be.
    method Digest() returns (h64: bv64)
      requires Valid()
      ensures |fed| < 32 || |fed| % WRAP_64 >= 32 ==> h64 == Hash64(seed, fed)
      ensures |fed| >= 32 > |fed| % WRAP_64 ==> h64 == ShortForm(seed, fed)
    {
      hide Stripe, Start, Avalanche, Tail, Finalize, Stripes, SameBytes, Absorb, InitLanes;
      ResidueOfWrapped(|fed|);
      StripesRest(|fed|);
      var large := totalLen >= 32;
      h64 := Start(large, lanes, lanes.v3, totalLen);
      if |fed| < 32 || large {
        if !large {
          SmallInputKeepsSeed(seed, fed);
        }
        StartIgnores(large, lanes, seed, totalLen);
      }
      FinalizeIsTail(h64, mem64[..], 0, totalLen);
      SameTail(h64, mem64[..], 0, fed, Stripes(|fed|), memsize);
      h64 := Finalize(h64, mem64[..], 0, totalLen);
    }
  }

  lemma ResidueOfWrapped(n: nat)
    ensures n % WRAP_64 % 32 == n % 32
    ensures n < 32 ==> n % WRAP_64 == n
    ensures n % WRAP_64 >= 32 ==> n >= 32
  {
    var r := n % WRAP_64;
    MultipleOf32((n / WRAP_64) * 0x800_0000_0000_0000, r);
    assert n == 32 * ((n / WRAP_64) * 0x800_0000_0000_0000) + r;
  }

  lemma MultipleOf32(k: nat, r: nat)
    ensures (32 * k + r) % 32 == r % 32
  {
  }

  // The seed no longer matters once a stripe has been absorbed.
  lemma StartIgnores(large: bool, lanes: Lanes, seed: bv64, length: nat)
    requires length < WRAP_64 && (large || lanes.v3 == seed)
    ensures Start(large, lanes, lanes.v3, length) == Start(large, lanes, seed, length)
  {
    hide Converge, Word, Sum;
  }

  // Below one stripe the third lane is still the seed.
  lemma {:induction false} SmallInputKeepsSeed(seed: bv64, data: seq<bv8>)
    requires |data| < 32
    ensures Absorb(seed, data, Stripes(|data|)).v3 == seed
  {
  }

  lemma LengthAdds(a: nat, b: nat)
    ensures (a + b) % WRAP_64 == (a % WRAP_64 + b % WRAP_64) % WRAP_64
  {
  }

  // Hashing in pieces, the "simple version" the source describes beside XXH64: whatever the
  // chunking, the digest is the hash of the concatenation, for every length below 2^64, and is in
  // every case decided by the concatenation alone.
  method HashChunks(chunks: seq<seq<bv8>>, seed: bv64) returns (h64: bv64)
    ensures var all := Concat(chunks);
            h64 == if |all| < 32 || |all| % WRAP_64 >= 32 then Hash64(seed, all) else ShortForm(seed, all)
  {
    hide Hash64, ShortForm, Xxh64State.Valid;
    var state := new Xxh64State(0);
    state.Reset(seed);
    var i := 0;
    while i < |chunks|
      invariant 0 <= i <= |chunks|
      invariant state.Valid() && fresh(state) && fresh(state.mem64) && state.seed == seed
      invariant state.fed == Concat(chunks[..i])
    {
      var ok := state.Update(Some(chunks[i]));
      assert chunks[..i + 1][..i] == chunks[..i];
      i := i + 1;
    }
    assert chunks[..|chunks|] == chunks;
    h64 := state.Digest();
  }
}
