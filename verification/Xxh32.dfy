/**
 The 32-bit xxHash: mixing arithmetic, the one-shot function, the streaming state, and two
 theorems. Hashing in any number of pieces gives the one-shot hash of their concatenation, and
 inputs that differ inside a single unit (an aligned word, or one of the last bytes) never collide.
 */
module Xxh32 {
  import opened Bytes
  import opened XxhBytes

  const WRAP_32 := 0x1_0000_0000

  // The 32-bit length counter.
  function Wrap(n: nat): (w: nat)
    ensures w < WRAP_32
  {
    n % WRAP_32
  }

  function Rotl(x: bv32, r: bv32): bv32
    requires r <= 32
  {
    (x << r) | (x >> (32 - r))
  }

  function ReadLE32(data: seq<bv8>, p: nat): bv32
    requires p + 4 <= |data|
  {
    data[p] as bv32 | (data[p + 1] as bv32 << 8) | (data[p + 2] as bv32 << 16) | (data[p + 3] as bv32 << 24)
  }

  // The arithmetic of the mixing steps, one named operation each; ScaleN multiplies by the source's N-th prime.
  // The primes are written out where they are used, which keeps the solver's terms constant.
  function Sum(a: bv32, b: bv32): bv32 { a + b }
  function Scale1(x: bv32): bv32 { x * 2654435761 }
  function Scale2(x: bv32): bv32 { x * 2246822519 }
  function Scale3(x: bv32): bv32 { x * 3266489917 }
  function Scale4(x: bv32): bv32 { x * 668265263 }
  function Scale5(x: bv32): bv32 { x * 374761393 }

  function XorShift13(x: bv32): bv32 { x ^ (x >> 13) }
  function XorShift15(x: bv32): bv32 { x ^ (x >> 15) }
  function XorShift16(x: bv32): bv32 { x ^ (x >> 16) }
  function Widen(b: bv8): bv32 { b as bv32 }

  function Round(seed: bv32, input: bv32): bv32 {
    Scale1(Rotl(Sum(seed, Scale2(input)), 13))
  }

  function Avalanche(h: bv32): bv32 {
    XorShift16(Scale3(XorShift13(Scale2(XorShift15(h)))))
  }

  // ---------------------------------------------------------------- finalization

  function Process1(h: bv32, b: bv8): bv32 {
    Scale1(Rotl(Sum(h, Scale5(Widen(b))), 11))
  }

  function Process4(h: bv32, word: bv32): bv32 {
    Scale4(Rotl(Sum(h, Scale3(word)), 17))
  }

  // The last n bytes, from p: whole words first, then single bytes.
  function Tail(h: bv32, data: seq<bv8>, p: nat, n: nat): bv32
    requires p + n <= |data|
    decreases n
  {
    if n >= 4 then Tail(Process4(h, ReadLE32(data, p)), data, p + 4, n - 4)
    else if n >= 1 then Tail(Process1(h, data[p]), data, p + 1, n - 1)
    else h
  }

  // The switch of XXH32_finalize: one case a residue, each falling through to a shorter one of
  // the same class modulo four.
  function FinalizeCase(h: bv32, data: seq<bv8>, p: nat, residue: nat): bv32
    requires residue < 16 && p + residue <= |data|
    decreases residue
  {
    match residue
    case 12 => FinalizeCase(Process4(h, ReadLE32(data, p)), data, p + 4, 8)
    case 8 => FinalizeCase(Process4(h, ReadLE32(data, p)), data, p + 4, 4)
    case 4 => Avalanche(Process4(h, ReadLE32(data, p)))
    case 13 => FinalizeCase(Process4(h, ReadLE32(data, p)), data, p + 4, 9)
    case 9 => FinalizeCase(Process4(h, ReadLE32(data, p)), data, p + 4, 5)
    case 5 => Avalanche(Process1(Process4(h, ReadLE32(data, p)), data[p + 4]))
    case 14 => FinalizeCase(Process4(h, ReadLE32(data, p)), data, p + 4, 10)
    case 10 => FinalizeCase(Process4(h, ReadLE32(data, p)), data, p + 4, 6)
    case 6 => Avalanche(Process1(Process1(Process4(h, ReadLE32(data, p)), data[p + 4]), data[p + 5]))
    case 15 => FinalizeCase(Process4(h, ReadLE32(data, p)), data, p + 4, 11)
    case 11 => FinalizeCase(Process4(h, ReadLE32(data, p)), data, p + 4, 7)
    case 7 => FinalizeCase(Process4(h, ReadLE32(data, p)), data, p + 4, 3)
    case 3 => FinalizeCase(Process1(h, data[p]), data, p + 1, 2)
    case 2 => FinalizeCase(Process1(h, data[p]), data, p + 1, 1)
    case 1 => FinalizeCase(Process1(h, data[p]), data, p + 1, 0)
    case 0 => Avalanche(h)
  }

  function Finalize(h: bv32, data: seq<bv8>, p: nat, len: nat): bv32
    requires p + len % 16 <= |data|
  {
    FinalizeCase(h, data, p, len % 16)
  }

  // Seven bytes or more start with a word; the short cases are spelled out.
  lemma FallThrough(h: bv32, data: seq<bv8>, p: nat, n: nat)
    requires 7 <= n < 16 && p + n <= |data|
    ensures FinalizeCase(h, data, p, n) == FinalizeCase(Process4(h, ReadLE32(data, p)), data, p + 4, n - 4)
  {
    hide Avalanche, Process4, Process1, ReadLE32;
  }

  lemma ShortCases(h: bv32, data: seq<bv8>, p: nat, n: nat)
    requires n < 7 && p + n <= |data|
    ensures n == 0 ==> FinalizeCase(h, data, p, n) == Avalanche(h)
    ensures 1 <= n <= 3 ==> FinalizeCase(h, data, p, n) == FinalizeCase(Process1(h, data[p]), data, p + 1, n - 1)
    ensures n == 4 ==> FinalizeCase(h, data, p, n) == Avalanche(Process4(h, ReadLE32(data, p)))
    ensures n == 5 ==> FinalizeCase(h, data, p, n) == Avalanche(Process1(Process4(h, ReadLE32(data, p)), data[p + 4]))
    ensures n == 6 ==>
        FinalizeCase(h, data, p, n)
            == Avalanche(Process1(Process1(Process4(h, ReadLE32(data, p)), data[p + 4]), data[p + 5]))
  {
    hide Avalanche, Process4, Process1, ReadLE32;
  }

  lemma TailStep(h: bv32, data: seq<bv8>, p: nat, n: nat)
    requires p + n <= |data|
    ensures n == 0 ==> Tail(h, data, p, n) == h
    ensures 1 <= n <= 3 ==> Tail(h, data, p, n) == Tail(Process1(h, data[p]), data, p + 1, n - 1)
    ensures n >= 4 ==> Tail(h, data, p, n) == Tail(Process4(h, ReadLE32(data, p)), data, p + 4, n - 4)
  {
    hide Process4, Process1, ReadLE32;
  }

  lemma {:induction false} FinalizeIsTail(h: bv32, data: seq<bv8>, p: nat, n: nat)
    requires n < 16 && p + n <= |data|
    ensures FinalizeCase(h, data, p, n) == Avalanche(Tail(h, data, p, n))
    decreases n
  {
    hide *;
    TailStep(h, data, p, n);
    if n >= 7 {
      FallThrough(h, data, p, n);
      FinalizeIsTail(Process4(h, ReadLE32(data, p)), data, p + 4, n - 4);
    } else {
      ShortCases(h, data, p, n);
      if 1 <= n <= 3 {
        FinalizeIsTail(Process1(h, data[p]), data, p + 1, n - 1);
      } else if n >= 4 {
        var h4 := Process4(h, ReadLE32(data, p));
        TailStep(h4, data, p + 4, n - 4);
        if n >= 5 {
          var h5 := Process1(h4, data[p + 4]);
          TailStep(h5, data, p + 5, n - 5);
          if n == 6 {
            TailStep(Process1(h5, data[p + 5]), data, p + 6, 0);
          }
        }
      }
    }
  }

  // The tail depends only on the bytes it reads.
  lemma {:induction false} SameTail(h: bv32, a: seq<bv8>, p: nat, b: seq<bv8>, q: nat, n: nat)
    requires SameBytes(a, p, b, q, n)
    ensures Tail(h, a, p, n) == Tail(h, b, q, n)
    decreases n
  {
    hide Process1, Process4, ReadLE32;
    if n >= 4 {
      SameWord(a, p, b, q, n);
      SameTail(Process4(h, ReadLE32(a, p)), a, p + 4, b, q + 4, n - 4);
    } else if n >= 1 {
      SameTail(Process1(h, a[p]), a, p + 1, b, q + 1, n - 1);
    }
  }

  lemma SameWord(a: seq<bv8>, p: nat, b: seq<bv8>, q: nat, n: nat)
    requires 4 <= n && SameBytes(a, p, b, q, n)
    ensures ReadLE32(a, p) == ReadLE32(b, q)
  {
  }

  // ---------------------------------------------------------------- stripes

  datatype Lanes = Lanes(v1: bv32, v2: bv32, v3: bv32, v4: bv32)

  function InitLanes(seed: bv32): Lanes {
    Lanes(seed + 2654435761 + 2246822519, seed + 2246822519, seed + 0, seed - 2654435761)
  }

  function Stripe(l: Lanes, data: seq<bv8>, p: nat): Lanes
    requires p + 16 <= |data|
  {
    Lanes(Round(l.v1, ReadLE32(data, p)), Round(l.v2, ReadLE32(data, p + 4)),
          Round(l.v3, ReadLE32(data, p + 8)), Round(l.v4, ReadLE32(data, p + 12)))
  }

  // A whole number of stripes.
  predicate Aligned(m: nat) {
    m % 16 == 0
  }

  // The lanes after the first m bytes, a whole number of stripes.
  function Absorb(seed: bv32, data: seq<bv8>, m: nat): Lanes
    requires m <= |data| && Aligned(m)
  {
    if m == 0 then InitLanes(seed) else Stripe(Absorb(seed, data, m - 16), data, m - 16)
  }

  lemma SameStripe(l: Lanes, a: seq<bv8>, p: nat, b: seq<bv8>, q: nat)
    requires SameBytes(a, p, b, q, 16)
    ensures Stripe(l, a, p) == Stripe(l, b, q)
  {
    hide Round, ReadLE32;
    SameWord(a, p, b, q, 4);
    SameWord(a, p + 4, b, q + 4, 4);
    SameWord(a, p + 8, b, q + 8, 4);
    SameWord(a, p + 12, b, q + 12, 4);
  }

  lemma {:induction false} SameAbsorb(seed: bv32, a: seq<bv8>, b: seq<bv8>, m: nat)
    requires Aligned(m) && SameBytes(a, 0, b, 0, m)
    ensures Absorb(seed, a, m) == Absorb(seed, b, m)
    decreases m
  {
    hide Stripe, InitLanes;
    if m != 0 {
      SameAbsorb(seed, a, b, m - 16);
      SameStripe(Absorb(seed, a, m - 16), a, m - 16, b, m - 16);
    }
  }

  function Converge(l: Lanes): bv32 {
    Sum(Sum(Sum(Rotl(l.v1, 1), Rotl(l.v2, 7)), Rotl(l.v3, 12)), Rotl(l.v4, 18))
  }

  // ---------------------------------------------------------------- the hash of a byte string

  function Stripes(n: nat): (m: nat)
    ensures m <= n < m + 16 && Aligned(m)
  {
    n / 16 * 16
  }

  lemma StripesRest(n: nat)
    ensures n - Stripes(n) == n % 16 == n % 16 % 16
  {
  }

  lemma StripesUnique(m: nat, n: nat)
    requires Aligned(m) && m <= n < m + 16
    ensures m == Stripes(n)
  {
  }

  function Word(n: nat): bv32
    requires n < WRAP_32
  {
    n as bv32
  }

  // The value handed to finalization: the lanes once there was a whole stripe, else the seed.
  function Start(large: bool, lanes: Lanes, seed: bv32, length: nat): bv32
    requires length < WRAP_32
  {
    Sum(if large then Converge(lanes) else Sum(seed, 374761393), Word(length))
  }

  function Hash32(seed: bv32, data: seq<bv8>): bv32 {
    var m := Stripes(|data|);
    Avalanche(Tail(Start(|data| >= 16, Absorb(seed, data, m), seed, Wrap(|data|)), data, m, |data| - m))
  }

  lemma AbsorbStep(seed: bv32, data: seq<bv8>, m: nat)
    requires Aligned(m) && m <= |data|
    ensures m == 0 ==> Absorb(seed, data, m) == InitLanes(seed)
    ensures m + 16 <= |data| ==> Absorb(seed, data, m + 16) == Stripe(Absorb(seed, data, m), data, m)
  {
    hide Stripe, InitLanes;
  }

  // XXH32_endian_align on a non-null input.
  method OneShot(input: seq<bv8>, seed: bv32) returns (h32: bv32)
    ensures h32 == Hash32(seed, input)
  {
    hide Word, Converge, Absorb, Stripe, Start, Avalanche, Tail, FinalizeCase, InitLanes, Stripes;
    var p := 0;
    var len := |input|;
    var l := InitLanes(seed);
    AbsorbStep(seed, input, 0);
    if len >= 16 {
      var limit := len - 15;
      while true
        invariant 0 <= p <= len - 16 && Aligned(p)
        invariant l == Absorb(seed, input, p)
        decreases len - p
      {
        AbsorbStep(seed, input, p);
        l := Stripe(l, input, p);
        p := p + 16;
        if p >= limit {
          break;
        }
      }
    }
    StripesUnique(p, len);
    StripesRest(len);
    h32 := Start(len >= 16, l, seed, Wrap(len));
    FinalizeIsTail(h32, input, p, len - p);
    h32 := Finalize(h32, input, p, len % 16);
  }

  // ---------------------------------------------------------------- streaming

  class Xxh32State {
    var totalLen32: nat
    var largeLen: bool
    var lanes: Lanes  // v1, v2, v3, v4
    const mem32: array<bv8>
    var memsize: nat
    // Everything hashed since the last reset, and the seed of that reset.
    ghost var fed: seq<bv8>
    ghost var seed: bv32

    // The lanes have absorbed all whole stripes, the buffer holds the rest, the length is kept
    // modulo 2^32 and largeLen remembers whether the true length ever reached 16.
    ghost predicate Valid()
      reads this, mem32
    {
      && mem32.Length == 16
      && totalLen32 == Wrap(|fed|)
      && largeLen == (|fed| >= 16)
      && Holding(fed)
    }

    // The state of lanes and buffer for a given input.
    ghost predicate Holding(data: seq<bv8>)
      requires mem32.Length == 16
      reads this`memsize, this`lanes, this`seed, mem32
    {
      && memsize == |data| - Stripes(|data|)
      && lanes == Absorb(seed, data, Stripes(|data|))
      && SameBytes(mem32[..], 0, data, Stripes(|data|), memsize)
    }

    constructor (seed: bv32)
      ensures Valid() && fed == [] && this.seed == seed && fresh(mem32)
    {
      totalLen32, largeLen, memsize := 0, false, 0;
      lanes := InitLanes(seed);
      mem32 := new bv8[16](i => 0);
      fed, this.seed := [], seed;
    }

    method Reset(seed: bv32)
      requires mem32.Length == 16
      modifies this
      ensures Valid() && fed == [] && this.seed == seed
    {
      totalLen32, largeLen, memsize := 0, false, 0;
      lanes := InitLanes(seed);
      fed, this.seed := [], seed;
    }

    // XXH32_update: None is a null pointer, which is refused.
    method Update(input: Option<seq<bv8>>) returns (ok: bool)
      requires Valid()
      modifies this, mem32
      ensures Valid() && seed == old(seed)
      ensures ok == input.Some?
      ensures fed == old(fed) + (if input.Some? then input.value else [])
    {
      hide Holding, Wrap;
      if input.None? {
        assert fed + [] == fed;
        return false;
      }
      var data := input.value;
      var len := |data|;
      ok := true;
      LengthAdds(|fed|, len);
      totalLen32 := Wrap(totalLen32 + Wrap(len));
      largeLen := largeLen || len >= 16 || totalLen32 >= 16;
      if memsize + len < 16 {
        AppendToBuffer(data);
      } else {
        AbsorbInput(data);
      }
      fed := fed + data;
    }

    // "Fill in tmp buffer": the input does not complete a stripe.
    method AppendToBuffer(data: seq<bv8>)
      requires mem32.Length == 16 && Holding(fed) && memsize + |data| < 16
      modifies this`memsize, mem32
      ensures Holding(fed + data)
    {
      hide Absorb, Stripes, Aligned;
      ghost var all := fed + data;
      StripesUnique(Stripes(|fed|), |all|);
      forall i | 0 <= i < |data| {
        mem32[memsize + i] := data[i];
      }
      SameAbsorb(seed, fed, all, Stripes(|fed|));
      memsize := memsize + |data|;
    }

    // The input completes at least one stripe: the buffered one first, then those of the input
    // itself, and what remains goes to the buffer.
    method AbsorbInput(data: seq<bv8>)
      requires mem32.Length == 16 && Holding(fed) && memsize + |data| >= 16
      modifies this`memsize, this`lanes, mem32
      ensures Holding(fed + data)
    {
      hide Stripe, InitLanes, Stripes, SameBytes, Absorb, Aligned;
      ghost var all := fed + data;
      ghost var m := Stripes(|fed|);
      FedPrefix(fed, data, m);
      SameAbsorb(seed, fed, all, m);
      var p: nat := 0;
      if memsize != 0 {
        p := 16 - memsize;
        CompleteStripe(data, all, m);
        m := m + 16;
      }
      p, m := AbsorbWholeStripes(data, p, all, m);
      KeepRest(data, p, m);
    }

    // What is left of the input goes to the buffer.
    method KeepRest(data: seq<bv8>, p: nat, ghost m: nat)
      requires mem32.Length == 16 && p <= |data| < p + 16 && m == |fed| + p && Aligned(m)
      requires lanes == Absorb(seed, fed + data, m)
      modifies this`memsize, mem32
      ensures Holding(fed + data)
    {
      hide Stripes, SameBytes, Absorb, Aligned;
      ghost var all := fed + data;
      StripesUnique(m, |all|);
      memsize := |data| - p;
      SaveRest(data, p);
      FedSuffix(fed, data, p, |data| - p);
      SameBytesTransitive(mem32[..], 0, data, p, all, m, memsize);
    }

    method AbsorbWholeStripes(data: seq<bv8>, p0: nat, ghost all: seq<bv8>, ghost m0: nat)
      returns (p: nat, ghost m: nat)
      requires p0 <= |data| && all == fed + data && m0 == |fed| + p0 && Aligned(m0)
      requires lanes == Absorb(seed, all, m0)
      modifies this`lanes
      ensures p0 <= p <= |data| < p + 16 && m == |fed| + p && Aligned(m)
      ensures lanes == Absorb(seed, all, m)
    {
      hide Stripe, InitLanes, SameBytes, Absorb;
      p, m := p0, m0;
      while p + 16 <= |data|
        invariant p0 <= p <= |data| && m == |fed| + p && Aligned(m)
        invariant lanes == Absorb(seed, all, m)
      {
        FedSuffix(fed, data, p, 16);
        AbsorbStep(seed, all, m);
        SameStripe(lanes, data, p, all, m);
        lanes := Stripe(lanes, data, p);
        p, m := p + 16, m + 16;
      }
    }

    method CompleteStripe(data: seq<bv8>, ghost all: seq<bv8>, ghost m: nat)
      requires mem32.Length == 16 && 0 < memsize < 16 && 16 - memsize <= |data| && all == fed + data
      requires m + memsize == |fed| && Aligned(m) && lanes == Absorb(seed, all, m)
      requires SameBytes(mem32[..], 0, fed, m, memsize)
      modifies this`memsize, this`lanes, mem32
      ensures memsize == 0 && Aligned(m + 16) && lanes == Absorb(seed, all, m + 16)
    {
      hide Stripe, InitLanes;
      forall i | 0 <= i < 16 - memsize {
        mem32[memsize + i] := data[i];
      }
      SameStripe(lanes, mem32[..], 0, all, m);
      lanes := Stripe(lanes, mem32[..], 0);
      memsize := 0;
    }

    method SaveRest(data: seq<bv8>, p: nat)
      requires mem32.Length == 16 && p <= |data| < p + 16
      modifies mem32
      ensures SameBytes(mem32[..], 0, data, p, |data| - p)
    {
      forall i | 0 <= i < |data| - p {
        mem32[i] := data[p + i];
      }
    }

    method Digest() returns (h32: bv32)
      requires Valid()
      ensures h32 == Hash32(seed, fed)
    {
      hide Stripe, Start, Avalanche, Tail, FinalizeCase, Stripes, SameBytes, Absorb, InitLanes;
      if !largeLen {
        SmallInputKeepsSeed(seed, fed);
      }
      StartIgnores(largeLen, lanes, seed, totalLen32);
      h32 := Start(largeLen, lanes, lanes.v3, totalLen32);
      FinalizeIsTail(h32, mem32[..], 0, memsize);
      SameTail(h32, mem32[..], 0, fed, Stripes(|fed|), memsize);
      h32 := Finalize(h32, mem32[..], 0, memsize);
    }
  }

  // The seed no longer matters once a stripe has been absorbed.
  lemma StartIgnores(large: bool, lanes: Lanes, seed: bv32, length: nat)
    requires length < WRAP_32 && (large || lanes.v3 == seed)
    ensures Start(large, lanes, lanes.v3, length) == Start(large, lanes, seed, length)
  {
    hide Converge, Word, Sum;
  }

  // Below one stripe the third lane is still the seed.
  lemma {:induction false} SmallInputKeepsSeed(seed: bv32, data: seq<bv8>)
    requires |data| < 16
    ensures Absorb(seed, data, Stripes(|data|)).v3 == seed
  {
  }

  // The wrapped length of the parts, and what still tells that the whole has 16 bytes or more.
  lemma LengthAdds(a: nat, b: nat)
    ensures Wrap(a + b) == Wrap(Wrap(a) + Wrap(b))
    ensures a + b >= 16 <==> a >= 16 || b >= 16 || Wrap(a + b) >= 16
  {
    WrapAdds(a, b);
    hide Wrap;
    WrapOfFew(a + b);
  }

  lemma WrapAdds(a: nat, b: nat)
    ensures Wrap(a + b) == Wrap(Wrap(a) + Wrap(b))
  {
  }

  lemma WrapOfFew(n: nat)
    ensures Wrap(n) <= n && (n < WRAP_32 ==> Wrap(n) == n)
  {
  }

  // Hashing in pieces, the "simple version" the source describes beside XXH32: whatever the
  // chunking, the digest is the hash of the concatenation.
  method HashChunks(chunks: seq<seq<bv8>>, seed: bv32) returns (h32: bv32)
    ensures h32 == Hash32(seed, Concat(chunks))
  {
    hide Hash32, Xxh32State.Valid;
    var state := new Xxh32State(0);
    state.Reset(seed);
    var i := 0;
    while i < |chunks|
      invariant 0 <= i <= |chunks|
      invariant state.Valid() && fresh(state) && fresh(state.mem32) && state.seed == seed
      invariant state.fed == Concat(chunks[..i])
    {
      var ok := state.Update(Some(chunks[i]));
      assert chunks[..i + 1][..i] == chunks[..i];
      i := i + 1;
    }
    assert chunks[..|chunks|] == chunks;
    h32 := state.Digest();
  }
}
