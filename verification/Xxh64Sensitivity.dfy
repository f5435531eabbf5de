/**
 The tail of the 64-bit xxHash: every step there is a bijection of the state for a fixed input and
 an injection of the input for a fixed state, so a change confined to one step's input always shows.
 */
module Xxh64Sensitivity {
  import opened XxhBytes
  import opened Xxh64

  // ---------------------------------------------------------------- injective steps

  // The primes are odd, so each scaling has an inverse modulo 2^64.
  function Unscale1(x: bv64): bv64 { x * 614540362697595703 }
  function Unscale2(x: bv64): bv64 { x * 839798700976720815 }
  function Unscale3(x: bv64): bv64 { x * 16855272203555305545 }
  function Unscale5(x: bv64): bv64 { x * 14236653164957433613 }

  lemma Product1(x: bv64)
    ensures Unscale1(x * 11400714785074694791) == x
  {
  }

  lemma Scale1Inverse(x: bv64)
    ensures Unscale1(Scale1(x)) == x
  {
    hide Unscale1;
    Product1(x);
  }

  lemma Product2(x: bv64)
    ensures Unscale2(x * 14029467366897019727) == x
  {
  }

  lemma Scale2Inverse(x: bv64)
    ensures Unscale2(Scale2(x)) == x
  {
    hide Unscale2;
    Product2(x);
  }

  lemma Product3(x: bv64)
    ensures Unscale3(x * 1609587929392839161) == x
  {
  }

  lemma Scale3Inverse(x: bv64)
    ensures Unscale3(Scale3(x)) == x
  {
    hide Unscale3;
    Product3(x);
  }

  lemma Product5(x: bv64)
    ensures Unscale5(x * 2870177450012600261) == x
  {
  }

  lemma Scale5Inverse(x: bv64)
    ensures Unscale5(Scale5(x)) == x
  {
    hide Unscale5;
    Product5(x);
  }

  lemma ScalesInjective(x: bv64, y: bv64)
    ensures Scale1(x) == Scale1(y) ==> x == y
    ensures Scale2(x) == Scale2(y) ==> x == y
    ensures Scale3(x) == Scale3(y) ==> x == y
    ensures Scale5(x) == Scale5(y) ==> x == y
  {
    hide *;
    Scale1Inverse(x);
    Scale1Inverse(y);
    Scale2Inverse(x);
    Scale2Inverse(y);
    Scale3Inverse(x);
    Scale3Inverse(y);
    Scale5Inverse(x);
    Scale5Inverse(y);
  }

  function Difference(a: bv64, b: bv64): bv64 { a - b }

  lemma DifferenceOfSum(a: bv64, b: bv64)
    ensures Difference(a + b, b) == a && Difference(a + b, a) == b
  {
  }

  lemma SumInverse(a: bv64, b: bv64)
    ensures Difference(Sum(a, b), b) == a && Difference(Sum(a, b), a) == b
  {
    hide Difference;
    DifferenceOfSum(a, b);
  }

  lemma SumInjective(x: bv64, y: bv64, z: bv64)
    ensures Sum(z, x) == Sum(z, y) ==> x == y
    ensures Sum(x, z) == Sum(y, z) ==> x == y
  {
    hide *;
    SumInverse(z, x);
    SumInverse(z, y);
    SumInverse(x, z);
    SumInverse(y, z);
  }

  lemma XorInjective(x: bv64, y: bv64, z: bv64)
    ensures Xor(z, x) == Xor(z, y) ==> x == y
    ensures Xor(x, z) == Xor(y, z) ==> x == y
  {
  }

  lemma Rotation31(x: bv64)
    ensures Rotl(Rotl(x, 31), 33) == x
  {
  }

  lemma Rotation27(x: bv64)
    ensures Rotl(Rotl(x, 27), 37) == x
  {
  }

  lemma Rotation23(x: bv64)
    ensures Rotl(Rotl(x, 23), 41) == x
  {
  }

  lemma Rotation11(x: bv64)
    ensures Rotl(Rotl(x, 11), 53) == x
  {
  }

  lemma RotationsInjective(x: bv64, y: bv64)
    ensures Rotl(x, 31) == Rotl(y, 31) ==> x == y
    ensures Rotl(x, 27) == Rotl(y, 27) ==> x == y
    ensures Rotl(x, 23) == Rotl(y, 23) ==> x == y
    ensures Rotl(x, 11) == Rotl(y, 11) ==> x == y
  {
    hide *;
    Rotation31(x);
    Rotation31(y);
    Rotation27(x);
    Rotation27(y);
    Rotation23(x);
    Rotation23(y);
    Rotation11(x);
    Rotation11(y);
  }

  function UnXorShift33(y: bv64): bv64 { y ^ (y >> 33) }

  lemma XorShiftTerm33(x: bv64)
    ensures UnXorShift33(x ^ (x >> 33)) == x
  {
  }

  lemma XorShiftInverse33(x: bv64)
    ensures UnXorShift33(XorShift33(x)) == x
  {
    hide UnXorShift33;
    XorShiftTerm33(x);
  }

  function UnXorShift29(y: bv64): bv64 { y ^ (y >> 29) ^ (y >> 58) }

  lemma XorShiftTerm29(x: bv64)
    ensures UnXorShift29(x ^ (x >> 29)) == x
  {
  }

  lemma XorShiftInverse29(x: bv64)
    ensures UnXorShift29(XorShift29(x)) == x
  {
    hide UnXorShift29;
    XorShiftTerm29(x);
  }

  function UnXorShift32(y: bv64): bv64 { y ^ (y >> 32) }

  lemma XorShiftTerm32(x: bv64)
    ensures UnXorShift32(x ^ (x >> 32)) == x
  {
  }

  lemma XorShiftInverse32(x: bv64)
    ensures UnXorShift32(XorShift32(x)) == x
  {
    hide UnXorShift32;
    XorShiftTerm32(x);
  }

  lemma XorShiftsInjective(x: bv64, y: bv64)
    ensures XorShift33(x) == XorShift33(y) ==> x == y
    ensures XorShift29(x) == XorShift29(y) ==> x == y
    ensures XorShift32(x) == XorShift32(y) ==> x == y
  {
    hide *;
    XorShiftInverse33(x);
    XorShiftInverse33(y);
    XorShiftInverse29(x);
    XorShiftInverse29(y);
    XorShiftInverse32(x);
    XorShiftInverse32(y);
  }

  lemma RoundInjective(v: bv64, w: bv64)
    ensures Round(0, v) == Round(0, w) ==> v == w
  {
    hide Sum, Rotl, Scale1, Scale2;
    var x, y := Sum(0, Scale2(v)), Sum(0, Scale2(w));
    ScalesInjective(Rotl(x, 31), Rotl(y, 31));
    RotationsInjective(x, y);
    SumInjective(Scale2(v), Scale2(w), 0);
    ScalesInjective(v, w);
  }

  lemma Mix8Injective(g: bv64, h: bv64, v: bv64, w: bv64)
    requires g == h || v == w
    requires Mix8(g, v) == Mix8(h, w)
    ensures g == h && v == w
  {
    hide Sum, Rotl, Scale1, Xor, Round;
    var x, y := Xor(g, Round(0, v)), Xor(h, Round(0, w));
    SumInjective(Scale1(Rotl(x, 27)), Scale1(Rotl(y, 27)), 9650029242287828579);
    ScalesInjective(Rotl(x, 27), Rotl(y, 27));
    RotationsInjective(x, y);
    XorInjective(Round(0, v), Round(0, w), g);
    XorInjective(g, h, Round(0, v));
    RoundInjective(v, w);
  }

  lemma Mix4Injective(g: bv64, h: bv64, v: bv64, w: bv64)
    requires g == h || v == w
    requires Mix4(g, v) == Mix4(h, w)
    ensures g == h && v == w
  {
    hide Sum, Rotl, Scale1, Scale2, Xor;
    var x, y := Xor(g, Scale1(v)), Xor(h, Scale1(w));
    SumInjective(Scale2(Rotl(x, 23)), Scale2(Rotl(y, 23)), 1609587929392839161);
    ScalesInjective(Rotl(x, 23), Rotl(y, 23));
    RotationsInjective(x, y);
    XorInjective(Scale1(v), Scale1(w), g);
    XorInjective(g, h, Scale1(v));
    ScalesInjective(v, w);
  }

  function Widen(b: bv8): bv64 { b as bv64 }

  lemma Widening(v: bv8, w: bv8)
    ensures Widen(v) == Widen(w) ==> v == w
  {
  }

  lemma Mix1Injective(g: bv64, h: bv64, v: bv8, w: bv8)
    requires g == h || v == w
    requires Mix1(g, v) == Mix1(h, w)
    ensures g == h && v == w
  {
    hide Rotl, Scale1, Scale5, Xor;
    var a, b := v as bv64, w as bv64;
    Widening(v, w);
    var x, y := Xor(g, Scale5(a)), Xor(h, Scale5(b));
    ScalesInjective(Rotl(x, 11), Rotl(y, 11));
    RotationsInjective(x, y);
    XorInjective(Scale5(a), Scale5(b), g);
    XorInjective(g, h, Scale5(a));
    ScalesInjective(a, b);
  }

  lemma AvalancheInjective(g: bv64, h: bv64)
    requires Avalanche(g) == Avalanche(h)
    ensures g == h
  {
    hide XorShift29, XorShift32, XorShift33, Scale2, Scale3;
    var g1, h1 := Scale2(XorShift33(g)), Scale2(XorShift33(h));
    var g2, h2 := Scale3(XorShift29(g1)), Scale3(XorShift29(h1));
    XorShiftsInjective(g2, h2);
    ScalesInjective(XorShift29(g1), XorShift29(h1));
    XorShiftsInjective(g1, h1);
    ScalesInjective(XorShift33(g), XorShift33(h));
    XorShiftsInjective(g, h);
  }

  // ---------------------------------------------------------------- words of bytes

  function FourBytes(a0: bv8, a1: bv8, a2: bv8, a3: bv8): bv64 {
    a0 as bv64 | (a1 as bv64 << 8) | (a2 as bv64 << 16) | (a3 as bv64 << 24)
  }

  lemma BytesOfWord(a0: bv8, a1: bv8, a2: bv8, a3: bv8, b0: bv8, b1: bv8, b2: bv8, b3: bv8)
    requires FourBytes(a0, a1, a2, a3) == FourBytes(b0, b1, b2, b3)
    ensures a0 == b0 && a1 == b1 && a2 == b2 && a3 == b3
  {
  }

  lemma WordIsShort(a0: bv8, a1: bv8, a2: bv8, a3: bv8)
    ensures Short(FourBytes(a0, a1, a2, a3))
  {
  }

  predicate Short(x: bv64) { x >> 32 == 0 }

  lemma JoinInjective(l: bv64, h: bv64, l': bv64, h': bv64)
    requires Short(l) && Short(h) && Short(l') && Short(h') && Join(l, h) == Join(l', h')
    ensures l == l' && h == h'
  {
  }

  // ---------------------------------------------------------------- the tail

  lemma Word32Differs(a: seq<bv8>, b: seq<bv8>, p: nat)
    requires |a| == |b| && p + 4 <= |a|
    requires exists k :: p <= k < p + 4 && a[k] != b[k]
    ensures ReadLE32(a, p) != ReadLE32(b, p)
  {
    hide FourBytes;
    if ReadLE32(a, p) == ReadLE32(b, p) {
      WordIs(a, p);
      WordIs(b, p);
      BytesOfWord(a[p], a[p + 1], a[p + 2], a[p + 3], b[p], b[p + 1], b[p + 2], b[p + 3]);
    }
  }

  lemma WordIs(a: seq<bv8>, p: nat)
    requires p + 4 <= |a|
    ensures ReadLE32(a, p) == FourBytes(a[p], a[p + 1], a[p + 2], a[p + 3]) && Short(ReadLE32(a, p))
  {
    hide Short;
    WordIsShort(a[p], a[p + 1], a[p + 2], a[p + 3]);
  }

  lemma Word64Differs(a: seq<bv8>, b: seq<bv8>, p: nat)
    requires |a| == |b| && p + 8 <= |a|
    requires exists k :: p <= k < p + 8 && a[k] != b[k]
    ensures ReadLE64(a, p) != ReadLE64(b, p)
  {
    hide ReadLE32, Join, Short, FourBytes;
    WordIs(a, p);
    WordIs(a, p + 4);
    WordIs(b, p);
    WordIs(b, p + 4);
    var k :| p <= k < p + 8 && a[k] != b[k];
    if k < p + 4 {
      Word32Differs(a, b, p);
    } else {
      Word32Differs(a, b, p + 4);
    }
    if ReadLE64(a, p) == ReadLE64(b, p) {
      JoinInjective(ReadLE32(a, p), ReadLE32(a, p + 4), ReadLE32(b, p), ReadLE32(b, p + 4));
    }
  }

  // A step shows a difference of the state, and one of the bytes it reads.
  lemma ApplyKeeps(op: Op, g: bv64, h: bv64, data: seq<bv8>, p: nat)
    requires p + op.Width() <= |data| && g != h
    ensures Apply(op, g, data, p) != Apply(op, h, data, p)
  {
    hide Mix1, Mix4, Mix8, ReadLE32, ReadLE64;
    if Apply(op, g, data, p) == Apply(op, h, data, p) {
      match op
      case Process8 => Mix8Injective(g, h, ReadLE64(data, p), ReadLE64(data, p));
      case Process4 => Mix4Injective(g, h, ReadLE32(data, p), ReadLE32(data, p));
      case Process1 => Mix1Injective(g, h, data[p], data[p]);
    }
  }

  lemma ApplyShows(op: Op, h: bv64, a: seq<bv8>, b: seq<bv8>, p: nat)
    requires p + op.Width() <= |a| && ChangedAt(a, b, p, op.Width())
    ensures Apply(op, h, a, p) != Apply(op, h, b, p)
  {
    hide Mix1, Mix4, Mix8, ReadLE32, ReadLE64;
    match op {
      case Process8 => Word64Differs(a, b, p);
      case Process4 => Word32Differs(a, b, p);
      case Process1 =>
    }
    if Apply(op, h, a, p) == Apply(op, h, b, p) {
      match op
      case Process8 => Mix8Injective(h, h, ReadLE64(a, p), ReadLE64(b, p));
      case Process4 => Mix4Injective(h, h, ReadLE32(a, p), ReadLE32(b, p));
      case Process1 => Mix1Injective(h, h, a[p], b[p]);
    }
  }

  lemma {:induction false} RunKeeps(g: bv64, h: bv64, data: seq<bv8>, p: nat, ops: seq<Op>)
    requires p + Size(ops) <= |data| && g != h
    ensures Run(g, data, p, ops) != Run(h, data, p, ops)
    decreases |ops|
  {
    hide Apply;
    if ops != [] {
      ApplyKeeps(ops[0], g, h, data, p);
      RunKeeps(Apply(ops[0], g, data, p), Apply(ops[0], h, data, p), data, p + ops[0].Width(), ops[1..]);
    }
  }

  lemma {:induction false} RunShows(h: bv64, a: seq<bv8>, b: seq<bv8>, p: nat, ops: seq<Op>, k: nat)
    requires k < |ops| && p + Size(ops) <= |a| && ChangedAt(a, b, p + Size(ops[..k]), ops[k].Width())
    ensures Run(h, a, p, ops) != Run(h, b, p, ops)
    decreases |ops|
  {
    hide Apply;
    var w := ops[0].Width();
    if k == 0 {
      assert ops[..0] == [];
      ApplyShows(ops[0], h, a, b, p);
      SameRun(Apply(ops[0], h, b, p), a, p + w, b, p + w, ops[1..]);
      RunKeeps(Apply(ops[0], h, a, p), Apply(ops[0], h, b, p), a, p + w, ops[1..]);
    } else {
      assert ops[..k][1..] == ops[1..][..k - 1] && ops[..k][0] == ops[0];
      SameApply(ops[0], h, a, b, p);
      RunShows(Apply(ops[0], h, a, p), a, b, p + w, ops[1..], k - 1);
    }
  }

  lemma SameApply(op: Op, h: bv64, a: seq<bv8>, b: seq<bv8>, p: nat)
    requires SameBytes(a, p, b, p, op.Width())
    ensures Apply(op, h, a, p) == Apply(op, h, b, p)
  {
    hide Mix1, Mix4, Mix8;
  }

  lemma SameBefore(a: seq<bv8>, b: seq<bv8>, i: nat, w: nat, m: nat)
    requires ChangedAt(a, b, i, w) && m <= i
    ensures |a| == |b| && SameBytes(a, 0, b, 0, m)
  {
  }

  /**
   Two inputs of equal length that differ only inside what one step of the tail reads - eight bytes,
   four, or one - have different hashes under every seed.
   */
  lemma TailUnitChangesHash(seed: bv64, a: seq<bv8>, b: seq<bv8>, k: nat)
    requires var m := Stripes(|a|);
             && k < |Greedy(|a| - m)|
             && ChangedAt(a, b, m + Size(Greedy(|a| - m)[..k]), Greedy(|a| - m)[k].Width())
    ensures Hash64(seed, a) != Hash64(seed, b)
  {
    hide Absorb, Start, Avalanche, Run, Stripes, InitLanes, Size, Greedy, ChangedAt, SameBytes;
    var n := |a|;
    var m := Stripes(n);
    GreedySize(n - m);
    SameBefore(a, b, m + Size(Greedy(n - m)[..k]), Greedy(n - m)[k].Width(), m);
    SameAbsorb(seed, a, b, m);
    var g := Start(n >= 32, Absorb(seed, a, m), seed, n % WRAP_64);
    RunShows(g, a, b, m, Greedy(n - m), k);
    if Hash64(seed, a) == Hash64(seed, b) {
      AvalancheInjective(Tail(g, a, m, n - m), Tail(g, b, m, n - m));
    }
  }

  // ---------------------------------------------------------------- the stripes

  // Exactly one lane differs.
  ghost predicate OneDiffers(a: Lanes, b: Lanes) {
    || (a.v1 != b.v1 && a.v2 == b.v2 && a.v3 == b.v3 && a.v4 == b.v4)
    || (a.v1 == b.v1 && a.v2 != b.v2 && a.v3 == b.v3 && a.v4 == b.v4)
    || (a.v1 == b.v1 && a.v2 == b.v2 && a.v3 != b.v3 && a.v4 == b.v4)
    || (a.v1 == b.v1 && a.v2 == b.v2 && a.v3 == b.v3 && a.v4 != b.v4)
  }

  lemma LaneShowsDifference(s: bv64, t: bv64, v: bv64, w: bv64)
    requires s == t || v == w
    ensures s != t || v != w ==> Round(s, v) != Round(t, w)
  {
    hide Sum, Rotl, Scale1, Scale2;
    if Round(s, v) == Round(t, w) {
      var x, y := Sum(s, Scale2(v)), Sum(t, Scale2(w));
      ScalesInjective(Rotl(x, 31), Rotl(y, 31));
      RotationsInjective(x, y);
      SumInjective(Scale2(v), Scale2(w), s);
      SumInjective(s, t, Scale2(v));
      ScalesInjective(v, w);
    }
  }

  // The same stripe keeps a difference in one lane.
  lemma StripeKeepsDifference(l: Lanes, k: Lanes, a: seq<bv8>, b: seq<bv8>, p: nat)
    requires OneDiffers(l, k) && SameBytes(a, p, b, p, 32)
    ensures OneDiffers(Stripe(l, a, p), Stripe(k, b, p))
  {
    hide Round, ReadLE64;
    SameLongWord(a, p, b, p, 8);
    SameLongWord(a, p + 8, b, p + 8, 8);
    SameLongWord(a, p + 16, b, p + 16, 8);
    SameLongWord(a, p + 24, b, p + 24, 8);
    LaneShowsDifference(l.v1, k.v1, ReadLE64(a, p), ReadLE64(a, p));
    LaneShowsDifference(l.v2, k.v2, ReadLE64(a, p + 8), ReadLE64(a, p + 8));
    LaneShowsDifference(l.v3, k.v3, ReadLE64(a, p + 16), ReadLE64(a, p + 16));
    LaneShowsDifference(l.v4, k.v4, ReadLE64(a, p + 24), ReadLE64(a, p + 24));
  }

  // The changed word reads differently, every other aligned word reads the same.
  lemma LongWordChange(a: seq<bv8>, b: seq<bv8>, i: nat, p: nat)
    requires ChangedAt(a, b, i, 8) && p + 8 <= |a| && (p == i || p + 8 <= i || i + 8 <= p)
    ensures ReadLE64(a, p) == ReadLE64(b, p) <==> p != i
  {
    if p == i {
      Word64Differs(a, b, p);
    } else {
      SameLongWord(a, p, b, p, 8);
    }
  }

  // A stripe that differs in one aligned word makes equal lanes differ in one place.
  lemma StripeMakesDifference(l: Lanes, a: seq<bv8>, b: seq<bv8>, p: nat, i: nat)
    requires p + 32 <= |a| == |b| && p <= i < p + 32 && (i - p) % 8 == 0 && ChangedAt(a, b, i, 8)
    ensures OneDiffers(Stripe(l, a, p), Stripe(l, b, p))
  {
    hide Round, ReadLE64, ChangedAt;
    LongWordChange(a, b, i, p);
    LongWordChange(a, b, i, p + 8);
    LongWordChange(a, b, i, p + 16);
    LongWordChange(a, b, i, p + 24);
    LaneShowsDifference(l.v1, l.v1, ReadLE64(a, p), ReadLE64(b, p));
    LaneShowsDifference(l.v2, l.v2, ReadLE64(a, p + 8), ReadLE64(b, p + 8));
    LaneShowsDifference(l.v3, l.v3, ReadLE64(a, p + 16), ReadLE64(b, p + 16));
    LaneShowsDifference(l.v4, l.v4, ReadLE64(a, p + 24), ReadLE64(b, p + 24));
  }

  // A change inside one aligned word of the stripes leaves exactly one lane different.
  lemma {:induction false} AbsorbShowsDifference(seed: bv64, a: seq<bv8>, b: seq<bv8>, m: nat, i: nat)
    requires Aligned(m) && i % 8 == 0 && i + 8 <= m <= |a| && ChangedAt(a, b, i, 8)
    ensures OneDiffers(Absorb(seed, a, m), Absorb(seed, b, m))
    decreases m
  {
    hide Stripe, InitLanes, OneDiffers;
    var p := m - 32;
    if i + 8 <= p {
      AbsorbShowsDifference(seed, a, b, p, i);
      StripeKeepsDifference(Absorb(seed, a, p), Absorb(seed, b, p), a, b, p);
    } else {
      AlignedInStripe(m, i);
      SameAbsorb(seed, a, b, p);
      StripeMakesDifference(Absorb(seed, a, p), a, b, p, i);
    }
  }

  lemma AlignedInStripe(m: nat, i: nat)
    requires Aligned(m) && i % 8 == 0 && m - 32 < i + 8 <= m
    ensures m >= 32 && m - 32 <= i && (i - (m - 32)) % 8 == 0
  {
  }

  /**
   So only the merge of the lanes decides: inputs of equal length that differ inside one aligned word of
   the stripes have the same hash exactly when their lanes, which differ in one place, merge alike.
   */
  lemma {:induction false} StripeUnitDecidedByMerge(seed: bv64, a: seq<bv8>, b: seq<bv8>, i: nat)
    requires i % 8 == 0 && i + 8 <= Stripes(|a|) && ChangedAt(a, b, i, 8)
    ensures |a| == |b| && OneDiffers(Absorb(seed, a, Stripes(|a|)), Absorb(seed, b, Stripes(|a|)))
    ensures Hash64(seed, a) == Hash64(seed, b)
       <==> Converge(Absorb(seed, a, Stripes(|a|))) == Converge(Absorb(seed, b, Stripes(|a|)))
  {
    hide Absorb, Avalanche, Run, InitLanes, Size, Greedy, Converge, Sum, Word, OneDiffers;
    var n, m := |a|, Stripes(|a|);
    AbsorbShowsDifference(seed, a, b, m, i);
    GreedySize(n - m);
    var la, lb := Absorb(seed, a, m), Absorb(seed, b, m);
    var g, h := Start(true, la, seed, n % WRAP_64), Start(true, lb, seed, n % WRAP_64);
    SumInjective(Converge(la), Converge(lb), Word(n % WRAP_64));
    SameTail(g, a, m, b, m, n - m);
    if g != h {
      RunKeeps(g, h, b, m, Greedy(n - m));
    }
    if Hash64(seed, a) == Hash64(seed, b) {
      AvalancheInjective(Tail(g, a, m, n - m), Tail(h, b, m, n - m));
    }
  }

  const ZEROS: seq<bv8> := [0, 0, 0, 0, 0, 0, 0, 0, 0, 0, 0, 0, 0, 0, 0, 0, 0, 0, 0, 0, 0, 0, 0, 0]
  const FIRST: seq<bv8> := [183, 210, 117, 100, 38, 159, 220, 246] + ZEROS
  const SECOND: seq<bv8> := [170, 62, 85, 243, 34, 124, 199, 125] + ZEROS

  // The lanes after each of two inputs of one stripe, and what they merge to.
  const FIRST_LANES := Lanes(8227988748020960501, 9155312661752487122, 0, 7888849115720265617)
  const SECOND_LANES := Lanes(545689516902084370, 9155312661752487122, 0, 7888849115720265617)

  lemma SameMerge()
    ensures Converge(FIRST_LANES) == Converge(SECOND_LANES)
  {
  }

  lemma TheirLanes()
    ensures Stripe(InitLanes(0), FIRST, 0) == FIRST_LANES
    ensures Stripe(InitLanes(0), SECOND, 0) == SECOND_LANES
  {
  }

  // And they may merge alike: a change inside one word of the only stripe that does not show.
  lemma StripeUnitMayNotShow()
    ensures ChangedAt(FIRST, SECOND, 0, 8) && Hash64(0, FIRST) == Hash64(0, SECOND)
  {
    hide Stripe, InitLanes, Converge, Avalanche, Run;
    AbsorbStep(0, FIRST, 0);
    AbsorbStep(0, SECOND, 0);
    TheirLanes();
    SameMerge();
    assert FIRST[0] != SECOND[0];
    StripeUnitDecidedByMerge(0, FIRST, SECOND, 0);
  }
}
