/**
 What the greedy compressor looks for, on values: the positions it probes at growing steps, the hash
 table each probe sees, which candidate it takes, how far a match goes, and the parse this gives. The
 hash may be any function of the eight bytes at a position.
 */
module Lz4Greedy {
  import opened Bytes
  import opened Lz4Format
  import opened Lz4Writer

  const SKIP_TRIGGER := 64  // 1 << LZ4_skipTrigger

  // LZ4_read32 at two places, compared.
  predicate Equal4(src: seq<byte>, i: nat, j: nat)
    requires i + 4 <= |src| && j + 4 <= |src|
  {
    src[i] == src[j] && src[i + 1] == src[j + 1] && src[i + 2] == src[j + 2] && src[i + 3] == src[j + 3]
  }

  // ---------------------------------------------------------------- hash table

  type HashFunction = seq<byte> -> nat

  // The hash of the eight bytes at p, all of which must be inside the source.
  function HashPosition(hash: HashFunction, src: seq<byte>, p: nat): nat
    requires p + 8 <= |src|
  {
    hash(src[p..p + 8])
  }

  ghost predicate HashFits(hash: HashFunction, cells: nat) {
    forall w :: hash(w) < cells
  }

  type Acceleration = a: nat | a >= 1 witness 1

  // One block: the index of its first byte, and how it is searched.
  datatype Block = Block(src: seq<byte>, start: nat, hash: HashFunction, acceleration: Acceleration)

  // The index the table holds for the bytes at p.
  function Index(x: Block, t: seq<nat>, p: nat): nat
    requires p + 8 <= |x.src|
  {
    var h := HashPosition(x.hash, x.src, p);
    if h < |t| then t[h] else 0
  }

  function Enter(x: Block, t: seq<nat>, p: nat): (t': seq<nat>)
    requires p + 8 <= |x.src|
    ensures |t'| == |t|
  {
    var h := HashPosition(x.hash, x.src, p);
    if h < |t| then t[h := x.start + p] else t
  }

  // The table has an earlier position of this block, no more than the largest distance back, with the
  // same four bytes.
  predicate Usable(x: Block, t: seq<nat>, p: nat)
    requires p + 8 <= |x.src|
  {
    var i := Index(x, t, p);
    x.start <= i < x.start + p <= i + 65535 && Equal4(x.src, i - x.start, p)
  }

  function Candidate(x: Block, t: seq<nat>, p: nat): (m: nat)
    requires p + 8 <= |x.src| && Usable(x, t, p)
    ensures m < p
  {
    Index(x, t, p) - x.start
  }

  // ---------------------------------------------------------------- the search for a match

  // How far the k-th probe is from the one after it.
  function StepAfter(acceleration: Acceleration, k: nat): (step: nat)
    ensures step >= 1
  {
    if k == 0 then 1 else (acceleration * SKIP_TRIGGER + k - 1) / SKIP_TRIGGER
  }

  // The position of the k-th probe of a search that starts at ip.
  function ProbeAt(acceleration: Acceleration, ip: nat, k: nat): (p: nat)
    ensures p >= ip + k
  {
    if k == 0 then ip else ProbeAt(acceleration, ip, k - 1) + StepAfter(acceleration, k - 1)
  }

  // The first probes are one acceleration apart, and every 64 probes the step grows by one.
  lemma {:induction false} ProbesSpread(acceleration: Acceleration, ip: nat, k: nat)
    requires k >= 1
    ensures StepAfter(acceleration, k) == acceleration + (k - 1) / 64
    ensures k <= 65 ==> ProbeAt(acceleration, ip, k) == ip + 1 + (k - 1) * acceleration
  {
    if k > 1 {
      ProbesSpread(acceleration, ip, k - 1);
    }
  }

  // The search comes to its k-th probe.
  predicate InReach(x: Block, ip: nat, k: nat) {
    ProbeAt(x.acceleration, ip, k) + MFLIMIT - 1 <= |x.src|
  }

  lemma {:induction false} EarlierInReach(x: Block, ip: nat, j: nat, k: nat)
    requires InReach(x, ip, k) && j <= k
    ensures InReach(x, ip, j)
    decreases k
  {
    if j < k {
      EarlierInReach(x, ip, j, k - 1);
    }
  }

  // The table that the k-th probe sees.
  function TableAt(x: Block, t: seq<nat>, ip: nat, k: nat): (t': seq<nat>)
    requires k == 0 || InReach(x, ip, k - 1)
    ensures |t'| == |t|
    decreases k
  {
    if k == 0 then t
    else
      EarlierInReach(x, ip, if k > 1 then k - 2 else 0, k - 1);
      Enter(x, TableAt(x, t, ip, k - 1), ProbeAt(x.acceleration, ip, k - 1))
  }

  function HashOfProbe(x: Block, ip: nat, k: nat): nat
    requires InReach(x, ip, k)
  {
    HashPosition(x.hash, x.src, ProbeAt(x.acceleration, ip, k))
  }

  // Probes in reach whose hash is not h.
  ghost predicate NoneHashes(x: Block, ip: nat, from: nat, to: nat, h: nat) {
    forall i :: from <= i < to ==> InReach(x, ip, i) && HashOfProbe(x, ip, i) != h
  }

  // That table holds the last probe with a hash,
  lemma {:induction false} LastProbeIsHeld(x: Block, t: seq<nat>, ip: nat, j: nat, k: nat, p: nat)
    requires j < k && InReach(x, ip, k - 1) && InReach(x, ip, j) && p + 8 <= |x.src|
    requires HashOfProbe(x, ip, j) == HashPosition(x.hash, x.src, p) < |t|
    requires NoneHashes(x, ip, j + 1, k, HashPosition(x.hash, x.src, p))
    ensures Index(x, TableAt(x, t, ip, k), p) == x.start + ProbeAt(x.acceleration, ip, j)
    decreases k
  {
    hide InReach, ProbeAt;
    if j + 1 < k {
      EarlierInReach(x, ip, k - 2, k - 1);
      LastProbeIsHeld(x, t, ip, j, k - 1, p);
    } else {
      EarlierInReach(x, ip, if k > 1 then k - 2 else 0, k - 1);
    }
  }

  // and what it held before where there was no such probe.
  lemma {:induction false} OldIndexIsHeld(x: Block, t: seq<nat>, ip: nat, k: nat, p: nat)
    requires (k == 0 || InReach(x, ip, k - 1)) && p + 8 <= |x.src|
    requires NoneHashes(x, ip, 0, k, HashPosition(x.hash, x.src, p))
    ensures Index(x, TableAt(x, t, ip, k), p) == Index(x, t, p)
    decreases k
  {
    if k > 0 {
      OldIndexIsHeld(x, t, ip, k - 1, p);
    }
  }

  // How many probes, from the k-th on, are passed over.
  function Misses(x: Block, t: seq<nat>, ip: nat, k: nat): (r: nat)
    requires InReach(x, ip, k)
    ensures k <= r && InReach(x, ip, r)
    decreases |x.src| - ProbeAt(x.acceleration, ip, k)
  {
    EarlierInReach(x, ip, if k > 0 then k - 1 else 0, k);
    if !InReach(x, ip, k + 1) || Usable(x, TableAt(x, t, ip, k), ProbeAt(x.acceleration, ip, k)) then k
    else Misses(x, t, ip, k + 1)
  }

  lemma MissesUnfolds(x: Block, t: seq<nat>, ip: nat, k: nat)
    requires InReach(x, ip, k)
    ensures var r := Misses(x, t, ip, k);
            && (!InReach(x, ip, k + 1) ==> r == k)
            && (InReach(x, ip, k + 1) ==> r == if Missed(x, t, ip, k) then Misses(x, t, ip, k + 1) else k)
  {
    hide Usable, ProbeAt, TableAt;
  }

  // The k-th probe is passed over: its candidate is of no use.
  predicate Missed(x: Block, t: seq<nat>, ip: nat, k: nat)
    requires InReach(x, ip, k)
  {
    EarlierInReach(x, ip, if k > 0 then k - 1 else 0, k);
    !Usable(x, TableAt(x, t, ip, k), ProbeAt(x.acceleration, ip, k))
  }

  // Nothing usable is passed over, and the search stops for a usable candidate or for lack of room.
  lemma {:induction false} MissesAreMissed(x: Block, t: seq<nat>, ip: nat, k: nat, j: nat)
    requires InReach(x, ip, k)
    ensures var r := Misses(x, t, ip, k);
            && (k <= j < r ==> InReach(x, ip, j) && Missed(x, t, ip, j))
            && (InReach(x, ip, r + 1) ==> !Missed(x, t, ip, r))
    decreases |x.src| - ProbeAt(x.acceleration, ip, k)
  {
    hide Usable, TableAt, StepAfter;
    if InReach(x, ip, k + 1) && Missed(x, t, ip, k) {
      MissesAreMissed(x, t, ip, k + 1, j);
    }
  }

  lemma {:induction false} EarlierAreMissed(x: Block, t: seq<nat>, ip: nat)
    requires InReach(x, ip, 0)
    ensures forall k :: 0 <= k < Misses(x, t, ip, 0) ==> InReach(x, ip, k) && Missed(x, t, ip, k)
  {
    forall k | 0 <= k < Misses(x, t, ip, 0) ensures InReach(x, ip, k) && Missed(x, t, ip, k) {
      MissesAreMissed(x, t, ip, 0, k);
    }
  }

  // The search takes the candidate of its k-th probe.
  predicate Taken(x: Block, t: seq<nat>, ip0: nat, k: nat, ip: nat, m: nat)
    requires InReach(x, ip0, k)
  {
    EarlierInReach(x, ip0, if k > 0 then k - 1 else 0, k);
    && ip == ProbeAt(x.acceleration, ip0, k)
    && Usable(x, TableAt(x, t, ip0, k), ip) && m == Candidate(x, TableAt(x, t, ip0, k), ip)
  }

  // What one probe does to the search, and where the next one is.
  lemma NextProbe(x: Block, t: seq<nat>, ip: nat, k: nat)
    requires InReach(x, ip, k)
    ensures k >= 1 ==> InReach(x, ip, k - 1)
    ensures ProbeAt(x.acceleration, ip, 0) == ip && StepAfter(x.acceleration, 0) == 1 && TableAt(x, t, ip, 0) == t
    ensures ProbeAt(x.acceleration, ip, k + 1) == ProbeAt(x.acceleration, ip, k) + StepAfter(x.acceleration, k)
    ensures StepAfter(x.acceleration, k + 1) == (x.acceleration * SKIP_TRIGGER + k) / SKIP_TRIGGER
    ensures TableAt(x, t, ip, k + 1) == Enter(x, TableAt(x, t, ip, k), ProbeAt(x.acceleration, ip, k))
    ensures Missed(x, t, ip, k) == !Usable(x, TableAt(x, t, ip, k), ProbeAt(x.acceleration, ip, k))
  {
    hide Usable, Enter;
    EarlierInReach(x, ip, if k > 0 then k - 1 else 0, k);
    MissesUnfolds(x, t, ip, k);
  }

  lemma {:induction false} TakeProbe(x: Block, t: seq<nat>, ip0: nat, k: nat, ip: nat, m: nat)
    requires InReach(x, ip0, k) && (k == 0 || InReach(x, ip0, k - 1)) && ip == ProbeAt(x.acceleration, ip0, k)
    requires m + x.start == Index(x, TableAt(x, t, ip0, k), ip) && Usable(x, TableAt(x, t, ip0, k), ip)
    ensures Taken(x, t, ip0, k, ip, m)
  {
  }

  /**
   What a search from ip0 in table t comes to: it passes over probes without a usable candidate, and takes
   the first usable one, unless its next probe would be out of reach. t1 is the table it leaves.
   */
  ghost predicate Searched(x: Block, t: seq<nat>, ip0: nat, found: bool, probes: nat, ip: nat, m: nat, t1: seq<nat>) {
    && InReach(x, ip0, probes) && found == InReach(x, ip0, probes + 1)
    && (forall k :: 0 <= k < probes ==> InReach(x, ip0, k) && Missed(x, t, ip0, k))
    && (found ==> Taken(x, t, ip0, probes, ip, m) && t1 == TableAt(x, t, ip0, probes + 1))
    && (!found ==> probes >= 1 ==> InReach(x, ip0, probes - 1))
    && (!found ==> t1 == TableAt(x, t, ip0, probes))
  }

  // Which is the number of probes that the parse counts.
  lemma {:induction false} SearchedMisses(x: Block, t: seq<nat>, ip0: nat, found: bool, probes: nat, ip: nat, m: nat,
                                          t1: seq<nat>)
    requires InReach(x, ip0, 0) && Searched(x, t, ip0, found, probes, ip, m, t1)
    ensures probes == Misses(x, t, ip0, 0)
  {
    hide Usable, TableAt, ProbeAt, Enter;
    var r := Misses(x, t, ip0, 0);
    MissesAreMissed(x, t, ip0, 0, probes);
    MissesAreMissed(x, t, ip0, 0, r);
    if r < probes {
      EarlierInReach(x, ip0, r + 1, probes);
    } else if r > probes {
      EarlierInReach(x, ip0, probes + 1, r);
    }
  }

  // ---------------------------------------------------------------- how far a match goes

  // The number of bytes at p that repeat those at m, up to limit.
  function Forwards(src: seq<byte>, p: nat, m: nat, limit: nat): (c: nat)
    requires m < p <= limit <= |src|
    ensures p + c <= limit
    decreases limit - p
  {
    if p < limit && src[p] == src[m] then 1 + Forwards(src, p + 1, m + 1, limit) else 0
  }

  // The longest repetition is the one that cannot go on.
  lemma {:induction false} ForwardsIsMaximal(src: seq<byte>, p: nat, m: nat, limit: nat, c: nat)
    requires m < p && p + c <= limit <= |src| && MatchesAt(src, m, p, c)
    ensures c <= Forwards(src, p, m, limit)
    ensures p + c < limit && src[p + c] != src[m + c] ==> c == Forwards(src, p, m, limit)
    decreases c
  {
    if c > 0 {
      assert src[p] == src[m];
      ForwardsIsMaximal(src, p + 1, m + 1, limit, c - 1);
    }
  }

  // How far a match can be extended backwards.
  function Backwards(src: seq<byte>, anchor: nat, ip: nat, m: nat): (c: nat)
    requires m < ip <= |src| && anchor <= ip
    ensures anchor + c <= ip && c <= m
    decreases ip
  {
    if ip > anchor && m > 0 && src[ip - 1] == src[m - 1] then 1 + Backwards(src, anchor, ip - 1, m - 1) else 0
  }

  // ---------------------------------------------------------------- the parse of a block

  // From a match on: it and all further ones that start where the one before stopped.
  function ChainFrom(x: Block, t: seq<nat>, anchor: nat, ip: nat, m: nat): seq<Sequence>
    requires anchor <= ip && ip + MFLIMIT <= |x.src| && m < ip
    decreases |x.src| - anchor, 0
  {
    var end := ip + MINMATCH + Forwards(x.src, ip + MINMATCH, m + MINMATCH, |x.src| - LASTLITERALS);
    var s := Sequence(x.src[anchor..ip], ip - m, end - ip);
    if end + MFLIMIT > |x.src| then [s]
    else
      var t1 := Enter(x, t, end - 2);
      var t2 := Enter(x, t1, end);
      if Usable(x, t1, end) then [s] + ChainFrom(x, t2, end, end, Candidate(x, t1, end))
      else [s] + ParseFrom(x, t2, end, end + 1)
  }

  // What a search that starts at ip, after a match that ended at anchor, leads to.
  function ParseFrom(x: Block, t: seq<nat>, anchor: nat, ip: nat): seq<Sequence>
    requires anchor <= ip && ip + MFLIMIT - 1 <= |x.src|
    decreases |x.src| - anchor, 1
  {
    hide Usable, TableAt, Backwards, StepAfter;
    var k := Misses(x, t, ip, 0);
    MissesAreMissed(x, t, ip, 0, 0);
    if !InReach(x, ip, k + 1) then []
    else
      EarlierInReach(x, ip, if k > 0 then k - 1 else 0, k);
      var p := ProbeAt(x.acceleration, ip, k);
      var m := Candidate(x, TableAt(x, t, ip, k), p);
      var back := Backwards(x.src, anchor, p, m);
      ChainFrom(x, TableAt(x, t, ip, k + 1), anchor, p - back, m - back)
  }

  function Parse(x: Block, t: seq<nat>): seq<Sequence> {
    if |x.src| < MFLIMIT + 1 then [] else ParseFrom(x, Enter(x, t, 0), 0, 1)
  }

  lemma SearchStarts(x: Block, ip: nat)
    requires ip + MFLIMIT - 1 <= |x.src|
    ensures InReach(x, ip, 0)
  {
  }

  // What follows a search.
  lemma {:induction false} SearchStep(x: Block, t: seq<nat>, anchor: nat, ip0: nat, found: bool, probes: nat,
                                      ip: nat, m: nat, t1: seq<nat>)
    requires anchor <= ip0 && InReach(x, ip0, 0) && Searched(x, t, ip0, found, probes, ip, m, t1)
    ensures !found ==> ParseFrom(x, t, anchor, ip0) == []
    ensures found ==>
              && m < ip && ip + MFLIMIT <= |x.src|
              && var back := Backwards(x.src, anchor, ip, m);
                 ParseFrom(x, t, anchor, ip0) == ChainFrom(x, t1, anchor, ip - back, m - back)
  {
    hide ChainFrom, Usable, Backwards, StepAfter, Missed;
    SearchedMisses(x, t, ip0, found, probes, ip, m, t1);
  }

  // What follows a match, after the sequences so far.
  lemma ChainStep(x: Block, t: seq<nat>, seqs: seq<Sequence>, anchor: nat, ip: nat, m: nat)
    requires anchor <= ip && ip + MFLIMIT <= |x.src| && m < ip
    ensures var end := ip + MINMATCH + Forwards(x.src, ip + MINMATCH, m + MINMATCH, |x.src| - LASTLITERALS);
            var more := seqs + [Sequence(x.src[anchor..ip], ip - m, end - ip)];
            if end + MFLIMIT > |x.src| then seqs + ChainFrom(x, t, anchor, ip, m) == more + []
            else
              var t1 := Enter(x, t, end - 2);
              var t2 := Enter(x, t1, end);
              seqs + ChainFrom(x, t, anchor, ip, m) == more +
                if Usable(x, t1, end) then ChainFrom(x, t2, end, end, Candidate(x, t1, end))
                else ParseFrom(x, t2, end, end + 1)
  {
    hide ParseFrom, Enter, Usable, Forwards;
  }

  // ---------------------------------------------------------------- runs of one byte

  ghost predicate AllEqual(s: seq<byte>) {
    forall i, j :: 0 <= i < j < |s| ==> s[i] == s[j]
  }

  // The first probe finds the byte before it.
  lemma {:induction false} RunTaken(x: Block, t: seq<nat>)
    requires |x.src| >= MFLIMIT + 1 && AllEqual(x.src) && HashPosition(x.hash, x.src, 0) < |t|
    ensures InReach(x, 1, 0)
    ensures Searched(x, Enter(x, t, 0), 1, true, 0, 1, 0, TableAt(x, Enter(x, t, 0), 1, 1))
  {
    hide ProbeAt, TableAt, Missed;
    assert x.src[0..8] == x.src[1..9];
    SearchStarts(x, 1);
    NextProbe(x, Enter(x, t, 0), 1, 0);
    TakeProbe(x, Enter(x, t, 0), 1, 0, 1, 0);
  }

  /**
   Whatever the hash, the table and the acceleration: a run of one byte becomes one literal, one match at
   offset 1 and the last five literals.
   */
  lemma RunParse(x: Block, t: seq<nat>)
    requires |x.src| >= MFLIMIT + 1 && AllEqual(x.src) && HashPosition(x.hash, x.src, 0) < |t|
    ensures Parse(x, t) == [Sequence(x.src[..1], 1, |x.src| - LASTLITERALS - 1)]
  {
    hide ParseFrom, TableAt, Forwards, Searched, InReach, Enter, Usable, Candidate, AllEqual;
    var n, t0 := |x.src|, Enter(x, t, 0);
    RunTaken(x, t);
    SearchStep(x, t0, 0, 1, true, 0, 1, 0, TableAt(x, t0, 1, 1));
    RunRepeats(x.src);
    ForwardsIsMaximal(x.src, 1 + MINMATCH, MINMATCH, n - LASTLITERALS, n - 2 * LASTLITERALS);
  }

  lemma RunRepeats(src: seq<byte>)
    requires |src| >= MFLIMIT + 1 && AllEqual(src)
    ensures MatchesAt(src, MINMATCH, 1 + MINMATCH, |src| - 2 * LASTLITERALS)
  {
  }

  lemma RunSize(n: nat, first: seq<byte>, last: seq<byte>)
    requires n >= MFLIMIT + 1 && |first| == 1 && |last| == LASTLITERALS
    ensures |EncodeBlock([Sequence(first, 1, n - LASTLITERALS - 1)], last)| <= n / 255 + 11
  {
    var s := Sequence(first, 1, n - LASTLITERALS - 1);
    OneSequenceSize(s);
    ExtensionSizes(1, n - 2 * LASTLITERALS);
    ExtensionSizes(LASTLITERALS, 0);
    assert EncodeAll([s]) == EncodeAll([]) + EncodeSequence(s);
  }
}
