/**
 Every mixing step of the 32-bit xxHash is a bijection of the state for a fixed input and an
 injection of the input for a fixed state, so a change confined to one unit always shows.
 */
module Xxh32Sensitivity {
  import opened XxhBytes
  import opened Xxh32

  // ---------------------------------------------------------------- injective steps

  // The primes are odd, so each scaling has an inverse modulo 2^32.
  function Unscale1(x: bv32): bv32 { x * 244002641 }
  function Unscale2(x: bv32): bv32 { x * 3066638151 }
  function Unscale3(x: bv32): bv32 { x * 2828982549 }
  function Unscale4(x: bv32): bv32 { x * 2701016015 }
  function Unscale5(x: bv32): bv32 { x * 2923004241 }

  lemma Product1(x: bv32)
    ensures Unscale1(x * 2654435761) == x
  {
  }

  lemma Scale1Inverse(x: bv32)
    ensures Unscale1(Scale1(x)) == x
  {
    hide Unscale1;
    Product1(x);
  }

  lemma Product2(x: bv32)
    ensures Unscale2(x * 2246822519) == x
  {
  }

  lemma Scale2Inverse(x: bv32)
    ensures Unscale2(Scale2(x)) == x
  {
    hide Unscale2;
    Product2(x);
  }

  lemma Product3(x: bv32)
    ensures Unscale3(x * 3266489917) == x
  {
  }

  lemma Scale3Inverse(x: bv32)
    ensures Unscale3(Scale3(x)) == x
  {
    hide Unscale3;
    Product3(x);
  }

  lemma Product4(x: bv32)
    ensures Unscale4(x * 668265263) == x
  {
  }

  lemma Scale4Inverse(x: bv32)
    ensures Unscale4(Scale4(x)) == x
  {
    hide Unscale4;
    Product4(x);
  }

  lemma Product5(x: bv32)
    ensures Unscale5(x * 374761393) == x
  {
  }

  lemma Scale5Inverse(x: bv32)
    ensures Unscale5(Scale5(x)) == x
  {
    hide Unscale5;
    Product5(x);
  }

  lemma ScalesInjective(x: bv32, y: bv32)
    ensures Scale1(x) == Scale1(y) ==> x == y
    ensures Scale2(x) == Scale2(y) ==> x == y
    ensures Scale3(x) == Scale3(y) ==> x == y
    ensures Scale4(x) == Scale4(y) ==> x == y
    ensures Scale5(x) == Scale5(y) ==> x == y
  {
    hide *;
    Scale1Inverse(x);
    Scale1Inverse(y);
    Scale2Inverse(x);
    Scale2Inverse(y);
    Scale3Inverse(x);
    Scale3Inverse(y);
    Scale4Inverse(x);
    Scale4Inverse(y);
    Scale5Inverse(x);
    Scale5Inverse(y);
  }

  function Difference(a: bv32, b: bv32): bv32 { a - b }

  lemma DifferenceOfSum(a: bv32, b: bv32)
    ensures Difference(a + b, b) == a && Difference(a + b, a) == b
  {
  }

  lemma SumInverse(a: bv32, b: bv32)
    ensures Difference(Sum(a, b), b) == a && Difference(Sum(a, b), a) == b
  {
    hide Difference;
    DifferenceOfSum(a, b);
  }

  lemma SumInjective(x: bv32, y: bv32, z: bv32)
    ensures Sum(z, x) == Sum(z, y) ==> x == y
    ensures Sum(x, z) == Sum(y, z) ==> x == y
  {
    hide *;
    SumInverse(z, x);
    SumInverse(z, y);
    SumInverse(x, z);
    SumInverse(y, z);
  }

  lemma RotationsInjective(x: bv32, y: bv32)
    ensures Rotl(x, 13) == Rotl(y, 13) ==> x == y
    ensures Rotl(x, 11) == Rotl(y, 11) ==> x == y
    ensures Rotl(x, 17) == Rotl(y, 17) ==> x == y
    ensures Rotl(x, 1) == Rotl(y, 1) ==> x == y
    ensures Rotl(x, 7) == Rotl(y, 7) ==> x == y
    ensures Rotl(x, 12) == Rotl(y, 12) ==> x == y
    ensures Rotl(x, 18) == Rotl(y, 18) ==> x == y
  {
  }

  function UnXorShift15(y: bv32): bv32 { y ^ (y >> 15) ^ (y >> 30) }
  function UnXorShift13(y: bv32): bv32 { y ^ (y >> 13) ^ (y >> 26) }
  function UnXorShift16(y: bv32): bv32 { y ^ (y >> 16) }

  lemma XorShiftTerms(x: bv32)
    ensures UnXorShift15(x ^ (x >> 15)) == x
    ensures UnXorShift13(x ^ (x >> 13)) == x
    ensures UnXorShift16(x ^ (x >> 16)) == x
  {
  }

  lemma XorShiftInverse(x: bv32)
    ensures UnXorShift15(XorShift15(x)) == x
    ensures UnXorShift13(XorShift13(x)) == x
    ensures UnXorShift16(XorShift16(x)) == x
  {
    hide UnXorShift15, UnXorShift13, UnXorShift16;
    XorShiftTerms(x);
  }

  lemma XorShiftsInjective(x: bv32, y: bv32)
    ensures XorShift15(x) == XorShift15(y) ==> x == y
    ensures XorShift13(x) == XorShift13(y) ==> x == y
    ensures XorShift16(x) == XorShift16(y) ==> x == y
  {
    hide *;
    XorShiftInverse(x);
    XorShiftInverse(y);
  }

  lemma RoundInjective(s: bv32, t: bv32, v: bv32, w: bv32)
    requires s == t || v == w
    requires Round(s, v) == Round(t, w)
    ensures s == t && v == w
  {
    hide Sum, Rotl, Scale1, Scale2;
    var x, y := Sum(s, Scale2(v)), Sum(t, Scale2(w));
    ScalesInjective(Rotl(x, 13), Rotl(y, 13));
    RotationsInjective(x, y);
    SumInjective(Scale2(v), Scale2(w), s);
    SumInjective(s, t, Scale2(v));
    ScalesInjective(v, w);
  }

  lemma Process4Injective(g: bv32, h: bv32, v: bv32, w: bv32)
    requires g == h || v == w
    requires Process4(g, v) == Process4(h, w)
    ensures g == h && v == w
  {
    hide Sum, Rotl, Scale3, Scale4;
    var x, y := Sum(g, Scale3(v)), Sum(h, Scale3(w));
    ScalesInjective(Rotl(x, 17), Rotl(y, 17));
    RotationsInjective(x, y);
    SumInjective(Scale3(v), Scale3(w), g);
    SumInjective(g, h, Scale3(v));
    ScalesInjective(v, w);
  }

  lemma Widening(v: bv8, w: bv8)
    ensures Widen(v) == Widen(w) ==> v == w
  {
  }

  lemma Process1Injective(g: bv32, h: bv32, v: bv8, w: bv8)
    requires g == h || v == w
    requires Process1(g, v) == Process1(h, w)
    ensures g == h && v == w
  {
    hide Sum, Rotl, Scale1, Scale5, Widen;
    var a, b := Widen(v), Widen(w);
    Widening(v, w);
    var x, y := Sum(g, Scale5(a)), Sum(h, Scale5(b));
    ScalesInjective(Rotl(x, 11), Rotl(y, 11));
    RotationsInjective(x, y);
    SumInjective(Scale5(a), Scale5(b), g);
    SumInjective(g, h, Scale5(a));
    ScalesInjective(a, b);
  }

  lemma AvalancheInjective(g: bv32, h: bv32)
    requires Avalanche(g) == Avalanche(h)
    ensures g == h
  {
    hide XorShift13, XorShift15, XorShift16, Scale2, Scale3;
    var g1, h1 := Scale2(XorShift15(g)), Scale2(XorShift15(h));
    var g2, h2 := Scale3(XorShift13(g1)), Scale3(XorShift13(h1));
    XorShiftsInjective(g2, h2);
    ScalesInjective(XorShift13(g1), XorShift13(h1));
    XorShiftsInjective(g1, h1);
    ScalesInjective(XorShift15(g), XorShift15(h));
    XorShiftsInjective(g, h);
  }

  // ---------------------------------------------------------------- lanes

  // Exactly one lane differs.
  ghost predicate OneDiffers(a: Lanes, b: Lanes) {
    || (a.v1 != b.v1 && a.v2 == b.v2 && a.v3 == b.v3 && a.v4 == b.v4)
    || (a.v1 == b.v1 && a.v2 != b.v2 && a.v3 == b.v3 && a.v4 == b.v4)
    || (a.v1 == b.v1 && a.v2 == b.v2 && a.v3 != b.v3 && a.v4 == b.v4)
    || (a.v1 == b.v1 && a.v2 == b.v2 && a.v3 == b.v3 && a.v4 != b.v4)
  }

  lemma ConvergeShowsDifference(a: Lanes, b: Lanes)
    requires OneDiffers(a, b)
    ensures Converge(a) != Converge(b)
  {
    hide Sum, Rotl;
    RotationsInjective(a.v1, b.v1);
    RotationsInjective(a.v2, b.v2);
    RotationsInjective(a.v3, b.v3);
    RotationsInjective(a.v4, b.v4);
    var a1, a2, a3, a4 := Rotl(a.v1, 1), Rotl(a.v2, 7), Rotl(a.v3, 12), Rotl(a.v4, 18);
    var b1, b2, b3, b4 := Rotl(b.v1, 1), Rotl(b.v2, 7), Rotl(b.v3, 12), Rotl(b.v4, 18);
    SumInjective(a1, b1, a2);
    SumInjective(a2, b2, a1);
    SumInjective(Sum(a1, a2), Sum(b1, b2), a3);
    SumInjective(a3, b3, Sum(a1, a2));
    SumInjective(Sum(Sum(a1, a2), a3), Sum(Sum(b1, b2), b3), a4);
    SumInjective(a4, b4, Sum(Sum(a1, a2), a3));
  }

  // The same stripe keeps a difference in one lane.
  lemma StripeKeepsDifference(l: Lanes, k: Lanes, a: seq<bv8>, b: seq<bv8>, p: nat)
    requires OneDiffers(l, k) && SameBytes(a, p, b, p, 16)
    ensures OneDiffers(Stripe(l, a, p), Stripe(k, b, p))
  {
    hide Round, ReadLE32;
    SameWord(a, p, b, p, 4);
    SameWord(a, p + 4, b, p + 4, 4);
    SameWord(a, p + 8, b, p + 8, 4);
    SameWord(a, p + 12, b, p + 12, 4);
    LaneKeepsDifference(l.v1, k.v1, ReadLE32(a, p));
    LaneKeepsDifference(l.v2, k.v2, ReadLE32(a, p + 4));
    LaneKeepsDifference(l.v3, k.v3, ReadLE32(a, p + 8));
    LaneKeepsDifference(l.v4, k.v4, ReadLE32(a, p + 12));
  }

  lemma LaneKeepsDifference(s: bv32, t: bv32, w: bv32)
    ensures s != t ==> Round(s, w) != Round(t, w)
  {
    hide *;
    if Round(s, w) == Round(t, w) {
      RoundInjective(s, t, w, w);
    }
  }

  // A stripe that differs in one aligned word makes equal lanes differ in one place.
  lemma StripeMakesDifference(l: Lanes, a: seq<bv8>, b: seq<bv8>, p: nat, i: nat)
    requires p + 16 <= |a| == |b| && p <= i < p + 16 && (i - p) % 4 == 0 && ChangedAt(a, b, i, 4)
    ensures OneDiffers(Stripe(l, a, p), Stripe(l, b, p))
  {
    hide Round, ReadLE32, ChangedAt;
    WordChange(a, b, i, p);
    WordChange(a, b, i, p + 4);
    WordChange(a, b, i, p + 8);
    WordChange(a, b, i, p + 12);
    InputMakesDifference(l.v1, ReadLE32(a, p), ReadLE32(b, p));
    InputMakesDifference(l.v2, ReadLE32(a, p + 4), ReadLE32(b, p + 4));
    InputMakesDifference(l.v3, ReadLE32(a, p + 8), ReadLE32(b, p + 8));
    InputMakesDifference(l.v4, ReadLE32(a, p + 12), ReadLE32(b, p + 12));
  }

  lemma InputMakesDifference(s: bv32, v: bv32, w: bv32)
    ensures v != w ==> Round(s, v) != Round(s, w)
  {
    hide *;
    if Round(s, v) == Round(s, w) {
      RoundInjective(s, s, v, w);
    }
  }

  // The changed word reads differently, every other aligned word reads the same.
  lemma WordChange(a: seq<bv8>, b: seq<bv8>, i: nat, p: nat)
    requires ChangedAt(a, b, i, 4) && p + 4 <= |a| && (p == i || p + 4 <= i || i + 4 <= p)
    ensures ReadLE32(a, p) == ReadLE32(b, p) <==> p != i
  {
  }

  lemma {:induction false} AbsorbShowsDifference(seed: bv32, a: seq<bv8>, b: seq<bv8>, m: nat, i: nat)
    requires m % 16 == 0 && i % 4 == 0 && i + 4 <= m <= |a| && ChangedAt(a, b, i, 4)
    ensures OneDiffers(Absorb(seed, a, m), Absorb(seed, b, m))
    decreases m
  {
    hide Stripe, InitLanes, OneDiffers;
    var p := m - 16;
    if i + 4 <= p {
      AbsorbShowsDifference(seed, a, b, p, i);
      StripeKeepsDifference(Absorb(seed, a, p), Absorb(seed, b, p), a, b, p);
    } else {
      AlignedInStripe(m, i);
      SameAbsorb(seed, a, b, p);
      StripeMakesDifference(Absorb(seed, a, p), a, b, p, i);
    }
  }

  lemma AlignedInStripe(m: nat, i: nat)
    requires m % 16 == 0 && i % 4 == 0 && m - 16 < i + 4 <= m
    ensures m >= 16 && m - 16 <= i && (i - (m - 16)) % 4 == 0
  {
  }

  // ---------------------------------------------------------------- tail

  lemma {:induction false} TailInjective(g: bv32, h: bv32, data: seq<bv8>, p: nat, n: nat)
    requires p + n <= |data| && g != h
    ensures Tail(g, data, p, n) != Tail(h, data, p, n)
    decreases n
  {
    hide Process1, Process4, ReadLE32, Tail;
    TailStep(g, data, p, n);
    TailStep(h, data, p, n);
    if n >= 4 {
      WordKeepsDifference(g, h, ReadLE32(data, p), ReadLE32(data, p));
      TailInjective(Process4(g, ReadLE32(data, p)), Process4(h, ReadLE32(data, p)), data, p + 4, n - 4);
    } else if n >= 1 {
      ByteKeepsDifference(g, h, data[p], data[p]);
      TailInjective(Process1(g, data[p]), Process1(h, data[p]), data, p + 1, n - 1);
    }
  }

  lemma WordKeepsDifference(g: bv32, h: bv32, v: bv32, w: bv32)
    requires g == h || v == w
    ensures g != h || v != w ==> Process4(g, v) != Process4(h, w)
  {
    hide *;
    if Process4(g, v) == Process4(h, w) {
      Process4Injective(g, h, v, w);
    }
  }

  lemma ByteKeepsDifference(g: bv32, h: bv32, v: bv8, w: bv8)
    requires g == h || v == w
    ensures g != h || v != w ==> Process1(g, v) != Process1(h, w)
  {
    hide *;
    if Process1(g, v) == Process1(h, w) {
      Process1Injective(g, h, v, w);
    }
  }

  // A unit of the tail that starts at p: a whole word, or one of the bytes after the last word.
  ghost predicate TailUnit(p: nat, n: nat, i: nat, w: nat) {
    p <= i && ((w == 4 && (i - p) % 4 == 0 && i + 4 <= p + n) || (w == 1 && p + n - n % 4 <= i < p + n))
  }

  lemma {:induction false} TailShowsDifference(h: bv32, a: seq<bv8>, b: seq<bv8>, p: nat, n: nat, i: nat, w: nat)
    requires p + n == |a| && ChangedAt(a, b, i, w) && TailUnit(p, n, i, w)
    ensures Tail(h, a, p, n) != Tail(h, b, p, n)
    decreases n
  {
    hide Process1, Process4, ReadLE32, Tail;
    TailStep(h, a, p, n);
    TailStep(h, b, p, n);
    if n >= 4 {
      if i == p {
        FirstWordIsUnit(p, n, w);
        WordChange(a, b, i, p);
        WordKeepsDifference(h, h, ReadLE32(a, p), ReadLE32(b, p));
        SameTail(Process4(h, ReadLE32(b, p)), a, p + 4, b, p + 4, n - 4);
        TailInjective(Process4(h, ReadLE32(a, p)), Process4(h, ReadLE32(b, p)), a, p + 4, n - 4);
      } else {
        LaterUnit(p, n, i, w);
        SameWord(a, p, b, p, 4);
        TailShowsDifference(Process4(h, ReadLE32(a, p)), a, b, p + 4, n - 4, i, w);
      }
    } else if i == p {
      ByteKeepsDifference(h, h, a[p], b[p]);
      SameTail(Process1(h, b[p]), a, p + 1, b, p + 1, n - 1);
      TailInjective(Process1(h, a[p]), Process1(h, b[p]), a, p + 1, n - 1);
    } else {
      TailShowsDifference(Process1(h, a[p]), a, b, p + 1, n - 1, i, w);
    }
  }

  lemma FirstWordIsUnit(p: nat, n: nat, w: nat)
    requires n >= 4 && TailUnit(p, n, p, w)
    ensures w == 4
  {
  }

  lemma LaterUnit(p: nat, n: nat, i: nat, w: nat)
    requires n >= 4 && i != p && TailUnit(p, n, i, w)
    ensures i >= p + 4 && TailUnit(p + 4, n - 4, i, w)
  {
  }

  // ---------------------------------------------------------------- the theorem

  // The units of an input of length n: its whole aligned words, and the bytes after the last one.
  ghost predicate IsUnit(n: nat, i: nat, w: nat) {
    (w == 4 && i % 4 == 0 && i + 4 <= n) || (w == 1 && n - n % 4 <= i < n)
  }

  lemma UnitBeforeOrInTail(n: nat, i: nat, w: nat)
    requires IsUnit(n, i, w)
    ensures var m := Stripes(n);
            (w == 4 && i % 4 == 0 && i + 4 <= m && n >= 16) || (i >= m && TailUnit(m, n - m, i, w))
  {
    hide Stripes, Aligned;
    var m := Stripes(n);
    InWords(n);
    var k, words := i / 4, m / 4;
    if w == 4 && k >= words {
      assert i - m == 4 * (k - words);
    }
  }

  lemma InWords(n: nat)
    ensures Stripes(n) == 4 * (Stripes(n) / 4) && (n - Stripes(n)) % 4 == n % 4
    ensures Stripes(n) > 0 ==> n >= 16
  {
    StripesRest(n);
    QuarterRest(n / 16 * 4, n - Stripes(n));
  }

  lemma QuarterRest(k: nat, r: nat)
    ensures (4 * k + r) % 4 == r % 4 && 4 * k / 4 == k
  {
  }

  lemma StartShowsDifference(a: Lanes, b: Lanes, seed: bv32, length: nat)
    requires length < WRAP_32 && OneDiffers(a, b)
    ensures Start(true, a, seed, length) != Start(true, b, seed, length)
  {
    hide Converge, Sum, Word, OneDiffers;
    ConvergeShowsDifference(a, b);
    SumInjective(Converge(a), Converge(b), Word(length));
  }

  // Two inputs of equal length that differ inside one unit have different hashes under every seed.
  lemma SingleUnitChangesHash(seed: bv32, a: seq<bv8>, b: seq<bv8>, i: nat, w: nat)
    requires IsUnit(|a|, i, w) && ChangedAt(a, b, i, w)
    ensures Hash32(seed, a) != Hash32(seed, b)
  {
    hide Absorb, Start, Avalanche, Tail, OneDiffers, Stripes, IsUnit, TailUnit, InitLanes;
    var n := |a|;
    var m := Stripes(n);
    UnitBeforeOrInTail(n, i, w);
    var g := Start(n >= 16, Absorb(seed, a, m), seed, Wrap(n));
    var h := Start(n >= 16, Absorb(seed, b, m), seed, Wrap(n));
    if i >= m {
      SameAbsorb(seed, a, b, m);
      TailShowsDifference(g, a, b, m, n - m, i, w);
    } else {
      AbsorbShowsDifference(seed, a, b, m, i);
      StartShowsDifference(Absorb(seed, a, m), Absorb(seed, b, m), seed, Wrap(n));
      SameTail(h, a, m, b, m, n - m);
      TailInjective(g, h, a, m, n - m);
    }
    AvalancheShows(Tail(g, a, m, n - m), Tail(h, b, m, n - m));
  }

  lemma AvalancheShows(g: bv32, h: bv32)
    ensures g != h ==> Avalanche(g) != Avalanche(h)
  {
    hide *;
    if Avalanche(g) == Avalanche(h) {
      AvalancheInjective(g, h);
    }
  }
}
