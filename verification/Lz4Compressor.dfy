/**
 The greedy compressor (LZ4_compress_generic without output limit and without dictionary), its
 context and the two entry points that reuse or reset the hash table. The hash may be any
 function of the eight bytes at a position.
 */
module Lz4Compressor {
  import opened Bytes
  import opened Lz4Format
  import opened Lz4Decoder
  import opened Lz4Greedy
  import opened Lz4Writer

  const KB := 1024
  const GB := 0x4000_0000
  const LIMIT_64K := 64 * KB + (MFLIMIT - 1)
  const HASH_CELLS := 8192  // the table seen as 16-bit cells; it holds half as many 32-bit ones

  const NEW_TABLE: seq<nat> := seq(HASH_CELLS, i => 0)

  datatype TableType = ClearedTable | ByU32 | ByU16 {
    function Cells(): nat { if ByU16? then HASH_CELLS else HASH_CELLS / 2 }
    function Width(): nat { if ByU16? then 0x1_0000 else 0x1_0000_0000 }
  }

  // ---------------------------------------------------------------- match length

  function NbCommonBytes(a: seq<byte>, b: seq<byte>): (n: nat)
    requires |a| == |b| && a != b
    ensures n < |a| && a[n] != b[n] && a[..n] == b[..n]
  {
    if a[0] != b[0] then 0
    else
      assert a == [a[0]] + a[1..] && b == [b[0]] + b[1..];
      1 + NbCommonBytes(a[1..], b[1..])
  }

  // The number of bytes at p that repeat those at m, up to limit: eight at a time while they all
  // agree, then four, two and one.
  method Count(src: seq<byte>, p: nat, m: nat, limit: nat) returns (c: nat)
    requires m < p <= limit <= |src|
    ensures p + c <= limit && MatchesAt(src, m, p, c)
    ensures p + c < limit ==> src[p + c] != src[m + c]
    ensures c == Forwards(src, p, m, limit)
  {
    hide MatchesAt, Forwards;
    c := 0;
    NoMatchYet(src, m, p);
    while p + c < limit - 7
      invariant p + c <= limit && MatchesAt(src, m, p, c)
    {
      var a, b := src[m + c..m + c + 8], src[p + c..p + c + 8];
      if a != b {
        StopsInWord(src, p, m, c);
        c := c + NbCommonBytes(a, b);
        ForwardsIsMaximal(src, p, m, limit, c);
        return;
      }
      ExtendMatch(src, m, p, c, 8);
      c := c + 8;
    }
    c := CountTail(src, p, m, limit, c);
    ForwardsIsMaximal(src, p, m, limit, c);
  }

  lemma StopsInWord(src: seq<byte>, p: nat, m: nat, c: nat)
    requires m < p && p + c + 8 <= |src| && MatchesAt(src, m, p, c) && src[m + c..m + c + 8] != src[p + c..p + c + 8]
    ensures var n := NbCommonBytes(src[m + c..m + c + 8], src[p + c..p + c + 8]);
            n < 8 && MatchesAt(src, m, p, c + n) && src[p + c + n] != src[m + c + n]
  {
    hide MatchesAt;
    var a, b := src[m + c..m + c + 8], src[p + c..p + c + 8];
    var n := NbCommonBytes(a, b);
    assert a[..n] == src[m + c..m + c + n] && b[..n] == src[p + c..p + c + n];
    ExtendMatch(src, m, p, c, n);
  }

  method CountTail(src: seq<byte>, p: nat, m: nat, limit: nat, c0: nat) returns (c: nat)
    requires m < p && limit - 7 <= p + c0 <= limit <= |src| && MatchesAt(src, m, p, c0)
    ensures p + c <= limit && MatchesAt(src, m, p, c)
    ensures p + c < limit ==> src[p + c] != src[m + c]
  {
    hide MatchesAt;
    c := c0;
    if p + c < limit - 3 && Equal4(src, m + c, p + c) {
      ExtendByOne(src, m, p, c);
      ExtendByOne(src, m, p, c + 1);
      ExtendByOne(src, m, p, c + 2);
      ExtendByOne(src, m, p, c + 3);
      c := c + 4;
    }
    if p + c < limit - 1 && Equal2(src, m + c, p + c) {
      ExtendByOne(src, m, p, c);
      ExtendByOne(src, m, p, c + 1);
      c := c + 2;
    }
    if p + c < limit && src[m + c] == src[p + c] {
      ExtendByOne(src, m, p, c);
      c := c + 1;
    }
  }

  // LZ4_read16 at two places, compared.
  predicate Equal2(src: seq<byte>, i: nat, j: nat)
    requires i + 2 <= |src| && j + 2 <= |src|
  {
    src[i] == src[j] && src[i + 1] == src[j + 1]
  }

  lemma ExtendByOne(src: seq<byte>, m: nat, p: nat, c: nat)
    requires MatchesAt(src, m, p, c) && p + c < |src| && src[m + c] == src[p + c]
    ensures MatchesAt(src, m, p, c + 1)
  {
  }

  lemma NoMatchYet(src: seq<byte>, m: nat, p: nat)
    requires m < p <= |src|
    ensures MatchesAt(src, m, p, 0)
  {
  }

  lemma ExtendMatch(src: seq<byte>, m: nat, p: nat, c: nat, n: nat)
    requires MatchesAt(src, m, p, c) && p + c + n <= |src|
    requires src[m + c..m + c + n] == src[p + c..p + c + n]
    ensures MatchesAt(src, m, p, c + n)
  {
  }

  // The bytes that describe a long match length: words of four 255s are written ahead, then the
  // final position is computed.
  method PutMatchExtension(dst: array<byte>, op0: nat, n: nat) returns (op: nat)
    requires op0 + n / 255 + 4 <= dst.Length
    modifies dst
    ensures op == op0 + n / 255 + 1
    ensures dst[..op] == old(dst[..op0]) + Extension(n)
  {
    ghost var before := dst[..op0];
    op := op0;
    var code := n;
    Write32(dst, op, 255);
    while code >= 4 * 255
      invariant op >= op0 && op - op0 + code / 255 == n / 255 && code % 255 == n % 255
      invariant forall k :: op0 <= k < op + 4 ==> dst[k] == 255
      invariant forall k :: 0 <= k < op0 ==> dst[k] == before[k]
    {
      op := op + 4;
      Write32(dst, op, 255);
      code := code - 4 * 255;
    }
    op := op + code / 255;
    dst[op] := code % 255;
    op := op + 1;
    ExtensionBytes(n);
    assert dst[op0..op] == Extension(n);
    assert dst[..op] == before + dst[op0..op];
  }

  lemma {:induction false} ExtensionBytes(n: nat)
    ensures forall i :: 0 <= i < n / 255 ==> Extension(n)[i] == 255
    ensures Extension(n)[n / 255] == n % 255
  {
    if n >= 255 {
      ExtensionBytes(n - 255);
      forall i | 0 <= i < n / 255 ensures Extension(n)[i] == 255 {
        assert Extension(n) == [255] + Extension(n - 255);
      }
    }
  }

  // Offset and match length of the sequence whose literal part starts at token.
  method PutMatch(dst: array<byte>, op0: nat, token: nat, offset: nat, matchCode: nat,
                  ghost before: seq<byte>, ghost lits: seq<byte>) returns (op: nat)
    requires token == |before| && op0 + 2 + matchCode / 255 + 4 <= dst.Length && offset <= DISTANCE_MAX
    requires dst[..op0] == before + LiteralPart(lits, 0)
    modifies dst
    ensures op == op0 + 2 + |MatchExtension(matchCode)| <= dst.Length
    ensures dst[..op] == before + EncodeSequence(Sequence(lits, offset, matchCode + MINMATCH))
  {
    hide LiteralPart, Extension, LE16;
    PutOffset(dst, op0, offset);
    op := op0 + 2;
    var nibble := matchCode;
    if matchCode >= ML_MASK {
      op := PutMatchExtension(dst, op, matchCode - ML_MASK);
      nibble := ML_MASK;
    }
    ghost var tail := LE16(offset) + MatchExtension(matchCode);
    assert dst[..op] == before + LiteralPart(lits, 0) + tail;
    AddToToken(dst, op, token, nibble, before, lits, tail);
    assert before + LiteralPart(lits, nibble) + tail
        == before + (LiteralPart(lits, nibble) + LE16(offset) + MatchExtension(matchCode));
  }

  // ---------------------------------------------------------------- hash table

  // Every entry is an index below limit; one from before the current block is either recognised
  // as such (dictSmall) or too far away to be used.
  ghost predicate TableOk(table: array<nat>, start: nat, limit: nat, dictSmall: bool)
    reads table
  {
    forall i :: 0 <= i < table.Length ==>
      table[i] < limit && (table[i] < start ==> dictSmall || table[i] + DISTANCE_MAX < start)
  }

  // Stores an index in a cell of the table's width; start + p is known to fit.
  method PutPosition(x: Block, table: array<nat>, h: nat, p: nat, tableType: TableType, dictSmall: bool)
    requires p + 8 <= |x.src| && h == HashPosition(x.hash, x.src, p) < table.Length
    requires x.start + p < tableType.Width()
    requires TableOk(table, x.start, x.start + p + 1, dictSmall)
    modifies table
    ensures TableOk(table, x.start, x.start + p + 1, dictSmall)
    ensures table[..] == Enter(x, old(table[..]), p)
  {
    table[h] := (x.start + p) % tableType.Width();
  }

  // What a block and a table of a given type must be like.
  ghost predicate Fitting(x: Block, table: array<nat>, tableType: TableType, dictSmall: bool) {
    && table.Length == HASH_CELLS && HashFits(x.hash, tableType.Cells())
    && x.start + |x.src| <= tableType.Width() + MFLIMIT - 1
    && (tableType == ByU16 ==> x.start == 0 || dictSmall)
  }

  // The two tests before the bytes are compared let through what is close enough, and only that.
  lemma CloseEnough(x: Block, table: array<nat>, tableType: TableType, dictSmall: bool, p: nat)
    requires Fitting(x, table, tableType, dictSmall) && p + MFLIMIT <= |x.src|
    requires TableOk(table, x.start, x.start + p, dictSmall)
    ensures HashPosition(x.hash, x.src, p) < table.Length && x.start + p < tableType.Width()
    ensures var i := table[HashPosition(x.hash, x.src, p)];
            var close := !(dictSmall && i < x.start) && !(tableType != ByU16 && i + DISTANCE_MAX < x.start + p);
            && i == Index(x, table[..], p)
            && (close ==> x.start <= i < x.start + p)
            && Usable(x, table[..], p) == (close && Equal4(x.src, i - x.start, p))
  {
    hide Equal4;
  }

  lemma HashInTable(x: Block, table: array<nat>, tableType: TableType, dictSmall: bool, p: nat)
    requires Fitting(x, table, tableType, dictSmall) && p + 8 <= |x.src|
    ensures HashPosition(x.hash, x.src, p) < table.Length
    ensures p + MFLIMIT <= |x.src| ==> x.start + p < tableType.Width()
  {
  }

  // The search loop: probes positions at growing steps until four bytes agree with the candidate
  // the table holds, or the end margin is reached.
  method FindMatch(x: Block, table: array<nat>, tableType: TableType, dictSmall: bool, ip0: nat)
    returns (found: bool, ip: nat, m: nat, ghost probes: nat)
    requires 1 <= ip0 && InReach(x, ip0, 0) && Fitting(x, table, tableType, dictSmall)
    requires TableOk(table, x.start, x.start + ip0, dictSmall)
    modifies table
    ensures found ==> ip0 <= ip && ip + MFLIMIT <= |x.src| && m < ip <= m + DISTANCE_MAX && Equal4(x.src, m, ip)
    ensures TableOk(table, x.start, x.start + (if found then ip + 1 else |x.src|), dictSmall)
    ensures Searched(x, old(table[..]), ip0, found, probes, ip, m, table[..])
  {
    hide Usable, ProbeAt, StepAfter, Equal4, HashFits, Misses, TableAt, Missed, Enter, Index, Candidate, Fitting,
         HashPosition, Taken, TableOk;
    var mflimitPlusOne := |x.src| - MFLIMIT + 1;
    var forwardIp := ip0;
    var forwardH := HashPosition(x.hash, x.src, forwardIp);
    var step := 1;
    var searchMatchNb := x.acceleration * SKIP_TRIGGER;
    found, ip, m, probes := false, ip0, 0, 0;
    ghost var t := table[..];
    NextProbe(x, t, ip0, 0);
    while true
      invariant InReach(x, ip0, probes) && forwardIp == ProbeAt(x.acceleration, ip0, probes) <= mflimitPlusOne
      invariant forwardH == HashPosition(x.hash, x.src, forwardIp)
      invariant step == StepAfter(x.acceleration, probes)
      invariant searchMatchNb == x.acceleration * SKIP_TRIGGER + probes
      invariant TableOk(table, x.start, x.start + forwardIp, dictSmall)
      invariant probes >= 1 ==> InReach(x, ip0, probes - 1)
      invariant table[..] == TableAt(x, t, ip0, probes)
      invariant Misses(x, t, ip0, 0) == Misses(x, t, ip0, probes)
      decreases mflimitPlusOne - forwardIp
    {
      HashInTable(x, table, tableType, dictSmall, forwardIp);
      var h := forwardH;
      var current := x.start + forwardIp;
      NextProbe(x, t, ip0, probes);
      MissesUnfolds(x, t, ip0, probes);
      var matchIndex := table[h];
      ip := forwardIp;
      forwardIp := forwardIp + step;
      step := searchMatchNb / SKIP_TRIGGER;
      searchMatchNb := searchMatchNb + 1;
      if forwardIp > mflimitPlusOne {
        TableMonotone(table, x.start, x.start + ip, x.start + |x.src|, dictSmall);
        EarlierAreMissed(x, t, ip0);
        return;
      }
      forwardH := HashPosition(x.hash, x.src, forwardIp);
      CloseEnough(x, table, tableType, dictSmall, ip);
      TableMonotone(table, x.start, x.start + ip, x.start + ip + 1, dictSmall);
      PutPosition(x, table, h, ip, tableType, dictSmall);
      TableMonotone(table, x.start, x.start + ip + 1, x.start + forwardIp, dictSmall);
      if dictSmall && matchIndex < x.start {
        probes := probes + 1;
        continue;
      }
      if tableType != ByU16 && matchIndex + DISTANCE_MAX < current {
        probes := probes + 1;
        continue;
      }
      m := matchIndex - x.start;
      if Equal4(x.src, m, ip) {
        found := true;
        TakeProbe(x, t, ip0, probes, ip, m);
        EarlierAreMissed(x, t, ip0);
        return;
      }
      probes := probes + 1;
    }
  }

  // Extends a match backwards over equal bytes, as far as the last anchor.
  method CatchUp(src: seq<byte>, anchor: nat, ip0: nat, m0: nat) returns (ip: nat, m: nat)
    requires anchor <= ip0 && ip0 + 4 <= |src| && m0 < ip0 && Equal4(src, m0, ip0)
    ensures anchor <= ip <= ip0 && ip - m == ip0 - m0
    ensures MatchesAt(src, m, ip, ip0 - ip + MINMATCH)
    ensures ip > anchor && m > 0 ==> src[ip - 1] != src[m - 1]
    ensures ip == ip0 - Backwards(src, anchor, ip0, m0)
  {
    ip, m := ip0, m0;
    while ip > anchor && m > 0 && src[ip - 1] == src[m - 1]
      invariant anchor <= ip <= ip0 && ip - m == ip0 - m0
      invariant ip - Backwards(src, anchor, ip, m) == ip0 - Backwards(src, anchor, ip0, m0)
      invariant MatchesAt(src, m, ip, ip0 - ip + MINMATCH)
    {
      ip, m := ip - 1, m - 1;
    }
  }

  // Right after a match: enters a position of the match and this one, and decides whether a new match
  // starts here at once.
  method TestNextPosition(x: Block, table: array<nat>, tableType: TableType, dictSmall: bool, ip: nat)
    returns (found: bool, m: nat)
    requires 4 <= ip && ip + MFLIMIT <= |x.src| && Fitting(x, table, tableType, dictSmall)
    requires TableOk(table, x.start, x.start + ip - 1, dictSmall)
    modifies table
    ensures TableOk(table, x.start, x.start + ip + 1, dictSmall)
    ensures found ==> m < ip <= m + DISTANCE_MAX && Equal4(x.src, m, ip)
    ensures var t := Enter(x, old(table[..]), ip - 2);
            && table[..] == Enter(x, t, ip)
            && found == Usable(x, t, ip) && (found ==> m == Candidate(x, t, ip))
  {
    PutPosition(x, table, HashPosition(x.hash, x.src, ip - 2), ip - 2, tableType, dictSmall);
    var h := HashPosition(x.hash, x.src, ip);
    var current := x.start + ip;
    CloseEnough(x, table, tableType, dictSmall, ip);
    var matchIndex := table[h];
    PutPosition(x, table, h, ip, tableType, dictSmall);
    found, m := false, 0;
    if (!dictSmall || matchIndex >= x.start) && (tableType == ByU16 || matchIndex + DISTANCE_MAX >= current) {
      m := matchIndex - x.start;
      found := Equal4(x.src, m, ip);
    }
  }

  // A sequence whose literals are already written: measures the match, of which the first sure
  // bytes are known, and writes the rest.
  method FinishSequence(src: seq<byte>, dst: array<byte>, token: nat, op0: nat, anchor: nat, ip0: nat, m: nat,
                        ghost sure: nat, ghost seqs0: seq<Sequence>)
    returns (op: nat, ip: nat, ghost seqs: seq<Sequence>)
    requires dst.Length >= |src| + |src| / 255 + 16 && op0 <= dst.Length
    requires anchor <= |src| && Parsed(seqs0, src, anchor) && LegalMatch(src, anchor, m, ip0, sure)
    requires token == |EncodeAll(seqs0)|
    requires dst[..op0] == EncodeAll(seqs0) + LiteralPart(src[anchor..ip0], 0)
    modifies dst
    ensures ip0 + sure <= ip && ip + LASTLITERALS <= |src| && op <= dst.Length
    ensures Parsed(seqs, src, ip) && dst[..op] == EncodeAll(seqs)
    ensures ip == ip0 + MINMATCH + Forwards(src, ip0 + MINMATCH, m + MINMATCH, |src| - LASTLITERALS)
    ensures seqs == seqs0 + [Sequence(src[anchor..ip0], ip0 - m, ip - ip0)]
  {
    hide LiteralPart, EncodeSequence, Expand, EncodeAll, ValidSequences, EndRules, MatchExtension, MatchesAt, Forwards,
         Parsed, LegalMatch, LiteralExtension;
    LegalBounds(src, anchor, m, ip0, sure);
    var matchCode := Count(src, ip0 + MINMATCH, m + MINMATCH, |src| - LASTLITERALS);
    CountCovers(src, m, ip0, matchCode, sure);
    LongerIsLegal(src, anchor, m, ip0, sure, matchCode + MINMATCH);
    RoomAfterLiterals(src, seqs0, anchor, ip0 - anchor, matchCode);
    op := PutMatch(dst, op0, token, ip0 - m, matchCode, EncodeAll(seqs0), src[anchor..ip0]);
    ip := ip0 + MINMATCH + matchCode;
    AppendSequence(seqs0, src, anchor, m, ip0, matchCode + MINMATCH);
    seqs := seqs0 + [Sequence(src[anchor..ip0], ip0 - m, matchCode + MINMATCH)];
  }

  lemma LegalBounds(src: seq<byte>, anchor: nat, m: nat, ip: nat, len: nat)
    requires LegalMatch(src, anchor, m, ip, len)
    ensures anchor <= ip && m < ip <= m + DISTANCE_MAX && ip + MFLIMIT <= |src|
    ensures MINMATCH <= len && ip + len + LASTLITERALS <= |src| && MatchesAt(src, m, ip, len)
  {
  }

  lemma LongerIsLegal(src: seq<byte>, anchor: nat, m: nat, ip: nat, len: nat, longer: nat)
    requires LegalMatch(src, anchor, m, ip, len)
    requires MatchesAt(src, m, ip, longer) && len <= longer && ip + longer + LASTLITERALS <= |src|
    ensures LegalMatch(src, anchor, m, ip, longer)
  {
  }

  lemma CountCovers(src: seq<byte>, m: nat, ip: nat, c: nat, sure: nat)
    requires MINMATCH <= sure && ip + sure + LASTLITERALS <= |src| && MatchesAt(src, m, ip, sure)
    requires MatchesAt(src, m + MINMATCH, ip + MINMATCH, c) && ip + MINMATCH + c + LASTLITERALS <= |src|
    requires ip + MINMATCH + c + LASTLITERALS < |src| ==> src[ip + MINMATCH + c] != src[m + MINMATCH + c]
    ensures MatchesAt(src, m, ip, MINMATCH + c) && MINMATCH + c >= sure
  {
  }

  lemma {:induction false} RoomAfterLiterals(src: seq<byte>, seqs: seq<Sequence>, anchor: nat, litLen: nat,
                                             matchCode: nat)
    requires anchor + litLen + MINMATCH + matchCode + LASTLITERALS <= |src| && Parsed(seqs, src, anchor)
    ensures ValidSequences(seqs)
    ensures var op := |EncodeAll(seqs)| + |LiteralPart(src[anchor..anchor + litLen], 0)|;
            && op == |EncodeAll(seqs)| + 1 + |LiteralExtension(litLen)| + litLen
            && op + 8 <= |src| + |src| / 255 + 16
            && op + 2 + matchCode / 255 + 4 <= |src| + |src| / 255 + 16
  {
    RoomForSequence(seqs, litLen, matchCode, |src|);
  }

  // A sequence whose literals are written, and every further one whose match starts right where
  // the last one stopped.
  method EncodeChain(x: Block, dst: array<byte>, table: array<nat>, tableType: TableType, dictSmall: bool,
                     op0: nat, token0: nat, anchor0: nat, ip0: nat, m0: nat,
                     ghost matchAt0: nat, ghost seqs0: seq<Sequence>)
    returns (op: nat, ip: nat, ghost seqs: seq<Sequence>)
    requires dst.Length >= |x.src| + |x.src| / 255 + 16 && op0 <= dst.Length
    requires Fitting(x, table, tableType, dictSmall)
    requires TableOk(table, x.start, x.start + matchAt0 + 1, dictSmall)
    requires anchor0 <= |x.src| && Parsed(seqs0, x.src, anchor0) && ip0 <= matchAt0
    requires LegalMatch(x.src, anchor0, m0, ip0, matchAt0 - ip0 + MINMATCH)
    requires token0 == |EncodeAll(seqs0)|
    requires dst[..op0] == EncodeAll(seqs0) + LiteralPart(x.src[anchor0..ip0], 0)
    modifies dst, table
    ensures matchAt0 < ip && ip + LASTLITERALS <= |x.src| && op <= dst.Length
    ensures Parsed(seqs, x.src, ip) && dst[..op] == EncodeAll(seqs)
    ensures TableOk(table, x.start, x.start + (if ip + MFLIMIT <= |x.src| then ip + 1 else |x.src|), dictSmall)
    ensures seqs0 + ChainFrom(x, old(table[..]), anchor0, ip0, m0)
         == seqs + (if ip + MFLIMIT <= |x.src| then ParseFrom(x, table[..], ip, ip + 1) else [])
  {
    hide LiteralPart, Expand, EncodeAll, ValidSequences, EndRules, TableOk, MatchesAt, ChainFrom, ParseFrom, Enter,
         Usable, Candidate, Forwards, Fitting, LiteralExtension, Equal4;
    var token: nat, anchor: nat, m: nat := token0, anchor0, m0;
    ghost var matchAt: nat := matchAt0;
    op, ip, seqs := op0, ip0, seqs0;
    while true
      invariant matchAt0 <= matchAt && anchor <= ip <= matchAt <= |x.src| && op <= dst.Length
      invariant Parsed(seqs, x.src, anchor) && LegalMatch(x.src, anchor, m, ip, matchAt - ip + MINMATCH)
      invariant token == |EncodeAll(seqs)| && dst[..op] == EncodeAll(seqs) + LiteralPart(x.src[anchor..ip], 0)
      invariant TableOk(table, x.start, x.start + matchAt + 1, dictSmall)
      invariant seqs0 + ChainFrom(x, old(table[..]), anchor0, ip0, m0)
             == seqs + ChainFrom(x, table[..], anchor, ip, m)
      decreases |x.src| - matchAt
    {
      ChainStep(x, table[..], seqs, anchor, ip, m);
      op, ip, seqs := FinishSequence(x.src, dst, token, op, anchor, ip, m, matchAt - ip + MINMATCH, seqs);
      anchor := ip;
      if ip + MFLIMIT > |x.src| {
        TableMonotone(table, x.start, x.start + matchAt + 1, x.start + |x.src|, dictSmall);
        return;
      }
      TableMonotone(table, x.start, x.start + matchAt + 1, x.start + ip - 1, dictSmall);
      var found;
      found, m := TestNextPosition(x, table, tableType, dictSmall, ip);
      if !found {
        return;
      }
      matchAt, token := ip, op;
      op := PutEmptyLiterals(x.src, dst, op, ip, seqs);
      FourMatch(x.src, m, ip);
    }
  }

  // *token = 0
  method PutEmptyLiterals(src: seq<byte>, dst: array<byte>, op0: nat, anchor: nat, ghost seqs: seq<Sequence>)
    returns (op: nat)
    requires anchor + MFLIMIT <= |src| && Parsed(seqs, src, anchor)
    requires op0 <= dst.Length && dst.Length >= |src| + |src| / 255 + 16 && dst[..op0] == EncodeAll(seqs)
    modifies dst
    ensures op == op0 + 1 <= dst.Length && dst[..op] == EncodeAll(seqs) + LiteralPart(src[anchor..anchor], 0)
  {
    hide Expand, EncodeAll, ValidSequences, EndRules;
    RoomAfterLiterals(src, seqs, anchor, 0, 0);
    dst[op0] := 0;
    op := op0 + 1;
    assert dst[..op] == EncodeAll(seqs) + [0];
    assert LiteralPart(src[anchor..anchor], 0) == [0];
  }

  lemma FourMatch(src: seq<byte>, m: nat, ip: nat)
    requires m < ip <= m + DISTANCE_MAX && ip + MFLIMIT <= |src| && Equal4(src, m, ip)
    ensures LegalMatch(src, ip, m, ip, MINMATCH)
  {
  }

  // The sequences of one block: everything LZ4_compress_generic does before its last literals.
  method CompressSequences(x: Block, dst: array<byte>, table: array<nat>, tableType: TableType, dictSmall: bool)
    returns (op: nat, anchor: nat, ghost seqs: seq<Sequence>)
    requires |x.src| >= MFLIMIT + 1 && dst.Length >= |x.src| + |x.src| / 255 + 16
    requires Fitting(x, table, tableType, dictSmall)
    requires TableOk(table, x.start, x.start + 1, dictSmall)
    modifies dst, table
    ensures op <= dst.Length && anchor <= |x.src|
    ensures Parsed(seqs, x.src, anchor) && dst[..op] == EncodeAll(seqs)
    ensures TableOk(table, x.start, x.start + |x.src|, dictSmall)
    ensures seqs == Parse(x, old(table[..]))
  {
    hide LiteralPart, Expand, EncodeAll, ValidSequences, EndRules, TableOk, LiteralExtension, MatchesAt, ChainFrom,
         ParseFrom, Enter, Usable, Candidate, Misses, TableAt, ProbeAt, Backwards, Searched, InReach, Equal4, Fitting;
    var ip, m := 0, 0;
    op, anchor, seqs := 0, 0, [];
    EmptyParse(x.src);
    assert dst[..0] == [];
    HashInTable(x, table, tableType, dictSmall, ip);
    PutPosition(x, table, HashPosition(x.hash, x.src, ip), ip, tableType, dictSmall);
    ip := 1;
    while true
      invariant anchor <= ip && 1 <= ip && ip + MFLIMIT - 1 <= |x.src| && op <= dst.Length
      invariant Parsed(seqs, x.src, anchor) && dst[..op] == EncodeAll(seqs)
      invariant TableOk(table, x.start, x.start + ip, dictSmall)
      invariant Parse(x, old(table[..])) == seqs + ParseFrom(x, table[..], anchor, ip)
      decreases |x.src| - ip
    {
      ghost var t, ip0 := table[..], ip;
      var found;
      ghost var probes;
      SearchStarts(x, ip);
      found, ip, m, probes := FindMatch(x, table, tableType, dictSmall, ip);
      SearchStep(x, t, anchor, ip0, found, probes, ip, m, table[..]);
      if !found {
        assert seqs + [] == seqs;
        return;
      }
      ghost var matchAt := ip;
      ip, m := CatchUp(x.src, anchor, ip, m);
      RoomAfterLiterals(x.src, seqs, anchor, ip - anchor, 0);
      var token := op;
      op := PutLiteralPart(dst, op, x.src, anchor, ip - anchor);
      op, ip, seqs := EncodeChain(x, dst, table, tableType, dictSmall, op, token, anchor, ip, m, matchAt, seqs);
      anchor := ip;
      if ip + MFLIMIT > |x.src| {
        assert seqs + [] == seqs;
        return;
      }
      ip := ip + 1;
    }
  }

  lemma TableMonotone(table: array<nat>, start: nat, limit: nat, larger: nat, dictSmall: bool)
    requires TableOk(table, start, limit, dictSmall) && limit <= larger
    ensures TableOk(table, start, larger, dictSmall)
  {
  }

  lemma EmptyParse(src: seq<byte>)
    ensures Parsed([], src, 0) && EncodeAll([]) == []
  {
  }

  // ---------------------------------------------------------------- contexts

  // The bounds-checked decoder recovers data from block in any buffer that can hold it.
  ghost predicate DecodesTo(block: seq<byte>, data: seq<byte>) {
    forall cap :: cap >= |data| ==> SafeDecode(block, cap) == Some(data)
  }

  lemma ParsedBlockDecodes(seqs: seq<Sequence>, src: seq<byte>, anchor: nat, block: seq<byte>)
    requires anchor <= |src| && Parsed(seqs, src, anchor)
    requires block == EncodeBlock(seqs, src[anchor..])
    ensures DecodesTo(block, src) && 1 <= |block| <= |src| + |src| / 255 + 16
  {
    hide EncodeBlock, SafeDecode, Expand, ValidSequences, EndRules;
    assert Expand(seqs) + src[anchor..] == src;
    BlockSize(seqs, src[anchor..]);
    forall cap | cap >= |src| ensures SafeDecode(block, cap) == Some(src) {
      DecodeEncode(seqs, src[anchor..], cap);
    }
  }

  // The block is the encoding of the greedy parse, closed with the rest of the source.
  ghost predicate IsGreedy(x: Block, t: seq<nat>, block: seq<byte>) {
    var seqs := Parse(x, t);
    && ValidSequences(seqs) && |Expand(seqs)| <= |x.src|
    && block == EncodeBlock(seqs, x.src[|Expand(seqs)|..])
  }

  // A run of one byte takes little more than one byte in 255.
  lemma ShortRuns(x: Block, t: seq<nat>, block: seq<byte>)
    requires HashFits(x.hash, |t|) && IsGreedy(x, t, block)
    ensures |x.src| >= MFLIMIT + 1 && AllEqual(x.src) ==> |block| <= |x.src| / 255 + 11
  {
    if |x.src| >= MFLIMIT + 1 && AllEqual(x.src) {
      RunParse(x, t);
      RunSize(|x.src|, x.src[..1], x.src[|x.src| - LASTLITERALS..]);
    }
  }

  class StreamContext {
    const hashTable: array<nat>
    var currentOffset: nat
    var dictSize: nat
    var tableType: TableType
    var dirty: bool

    // Every entry is the index of a past position, or zero in a table that was never used.
    ghost predicate Valid()
      reads this, hashTable
    {
      && hashTable.Length == HASH_CELLS
      && (dirty || (
        && (tableType == ClearedTable ==> currentOffset == 0)
        && forall i :: 0 <= i < hashTable.Length ==>
            hashTable[i] < currentOffset || hashTable[i] == currentOffset == 0))
    }

    // LZ4_initStream
    constructor ()
      ensures Valid() && !dirty && currentOffset == 0
      ensures fresh(hashTable) && hashTable[..] == NEW_TABLE
    {
      hashTable := new nat[HASH_CELLS](i => 0);
      currentOffset, dictSize, tableType, dirty := 0, 0, ClearedTable, false;
    }

    // What LZ4_compress_generic needs to know about leftovers of earlier blocks in the table.
    ghost predicate Ready(inputSize: nat, forType: TableType, dictSmall: bool)
      reads this, hashTable
    {
      && Valid() && !dirty
      && currentOffset + inputSize <= forType.Width() + MFLIMIT - 1
      && (forType == ByU16 ==> currentOffset == 0 || dictSmall)
      && (dictSmall || forall i :: 0 <= i < hashTable.Length ==>
            hashTable[i] >= currentOffset || hashTable[i] + DISTANCE_MAX < currentOffset)
    }

    method ClearTable()
      requires hashTable.Length == HASH_CELLS
      modifies this, hashTable
      ensures forall i :: 0 <= i < hashTable.Length ==> hashTable[i] == 0
      ensures currentOffset == 0 && tableType == ClearedTable
      ensures dictSize == old(dictSize) && dirty == old(dirty)
    {
      forall i | 0 <= i < hashTable.Length {
        hashTable[i] := 0;
      }
      currentOffset, tableType := 0, ClearedTable;
    }

    // The table of a used context serves again.
    predicate KeepsTable(inputSize: nat, forType: TableType)
      reads this
    {
      && !dirty
      && (tableType == ClearedTable || (
        && tableType == forType && inputSize < 4 * KB
        && (forType == ByU16 ==> currentOffset + inputSize < 0xFFFF)
        && (forType == ByU32 ==> currentOffset <= GB)))
    }

    // The table and the offset for the next block: a 64 KB gap puts what a kept table of wide cells
    // holds out of reach.
    function TableFor(inputSize: nat, forType: TableType): seq<nat>
      reads this, hashTable
    {
      if KeepsTable(inputSize, forType) then hashTable[..] else NEW_TABLE
    }

    function OffsetFor(inputSize: nat, forType: TableType): nat
      reads this
    {
      if !KeepsTable(inputSize, forType) then 0
      else if currentOffset != 0 && forType == ByU32 then currentOffset + 64 * KB
      else currentOffset
    }

    // LZ4_prepareTable: keeps the table where it can, so that a small block need not pay for
    // clearing it.
    method PrepareTable(inputSize: nat, forType: TableType)
      requires Valid() && forType != ClearedTable
      requires forType == ByU16 ==> inputSize < LIMIT_64K
      modifies this, hashTable
      ensures Valid() && !dirty && dictSize == 0
      ensures inputSize <= MAX_INPUT_SIZE ==> Ready(inputSize, forType, forType == ByU16 && currentOffset != 0)
      ensures inputSize >= 4 * KB ==> currentOffset == 0
      ensures tableType == if old(KeepsTable(inputSize, forType)) then old(tableType) else ClearedTable
      ensures hashTable[..] == old(TableFor(inputSize, forType)) && currentOffset == old(OffsetFor(inputSize, forType))
    {
      if dirty {
        ClearTable();
        dictSize, dirty := 0, false;
        return;
      }
      if tableType != ClearedTable {
        if tableType != forType
           || (forType == ByU16 && currentOffset + inputSize >= 0xFFFF)
           || (forType == ByU32 && currentOffset > GB)
           || inputSize >= 4 * KB
        {
          ClearTable();
        }
      }
      if currentOffset != 0 && forType == ByU32 {
        currentOffset := currentOffset + 64 * KB;
      }
      dictSize := 0;
    }

    // LZ4_compress_generic: notLimited, noDict.
    method CompressGeneric(src: seq<byte>, dst: array<byte>, forType: TableType, dictSmall: bool,
                           hash: HashFunction, acceleration: Acceleration) returns (r: nat)
      requires forType != ClearedTable && HashFits(hash, forType.Cells())
      requires Ready(|src|, forType, dictSmall) || |src| > MAX_INPUT_SIZE || (forType == ByU16 && |src| >= LIMIT_64K)
      requires dst.Length >= CompressBound(|src|)
      modifies this, hashTable, dst
      ensures r == 0 <==> |src| > MAX_INPUT_SIZE || (forType == ByU16 && |src| >= LIMIT_64K)
      ensures r != 0 ==> r <= CompressBound(|src|) && DecodesTo(dst[..r], src)
      ensures r != 0 ==> IsGreedy(Block(src, old(currentOffset), hash, acceleration), old(hashTable[..]), dst[..r])
      ensures |src| >= MFLIMIT + 1 && AllEqual(src) ==> r <= |src| / 255 + 11
      ensures old(Valid()) ==> Valid()
      ensures r == 0 ==> currentOffset == old(currentOffset) && tableType == old(tableType) && dirty == old(dirty)
                         && dictSize == old(dictSize) && hashTable[..] == old(hashTable[..])
      ensures r != 0 ==> currentOffset == old(currentOffset) + |src| && tableType == forType && !dirty
                         && dictSize == old(dictSize) + |src|
    {
      if |src| > MAX_INPUT_SIZE {
        return 0;
      }
      if forType == ByU16 && |src| >= LIMIT_64K {
        return 0;
      }
      var x := Block(src, currentOffset, hash, acceleration);
      dictSize := dictSize + |src|;
      currentOffset := currentOffset + |src|;
      tableType := forType;
      var op, anchor := 0, 0;
      ghost var seqs := [];
      EmptyParse(src);
      assert dst[..0] == [];
      if |src| >= MFLIMIT + 1 {
        op, anchor, seqs := CompressSequences(x, dst, hashTable, forType, dictSmall);
      }
      r := FinishBlock(src, dst, op, anchor, seqs);
      ShortRuns(x, old(hashTable[..]), dst[..r]);
    }

    // LZ4_compress_fast_extState_fastReset with a sufficient destination: the context may have
    // compressed any number of blocks before.
    method CompressFastReset(src: seq<byte>, dst: array<byte>, hash16: HashFunction, hash32: HashFunction,
                             acceleration: int)
      returns (r: nat)
      requires Valid() && HashFits(hash16, ByU16.Cells()) && HashFits(hash32, ByU32.Cells())
      requires dst.Length >= CompressBound(|src|)
      modifies this, hashTable, dst
      ensures Valid() && !dirty
      ensures |src| > MAX_INPUT_SIZE ==> r == 0
      ensures |src| <= MAX_INPUT_SIZE ==>
                var forType := if |src| < LIMIT_64K then ByU16 else ByU32;
                && currentOffset == old(OffsetFor(|src|, forType)) + |src|
                && tableType == forType && dictSize == |src|
      ensures |src| <= MAX_INPUT_SIZE ==> 0 < r <= CompressBound(|src|) && DecodesTo(dst[..r], src)
      ensures var forType := if |src| < LIMIT_64K then ByU16 else ByU32;
              |src| <= MAX_INPUT_SIZE ==>
                IsGreedy(Block(src, old(OffsetFor(|src|, forType)), if |src| < LIMIT_64K then hash16 else hash32,
                               if acceleration < 1 then 1 else acceleration),
                         old(TableFor(|src|, forType)), dst[..r])
      ensures |src| >= MFLIMIT + 1 && AllEqual(src) ==> r <= |src| / 255 + 11
    {
      hide IsGreedy, AllEqual, DecodesTo;
      var accel := if acceleration < 1 then 1 else acceleration;
      if |src| < LIMIT_64K {
        PrepareTable(|src|, ByU16);
        if currentOffset != 0 {
          r := CompressGeneric(src, dst, ByU16, true, hash16, accel);
        } else {
          r := CompressGeneric(src, dst, ByU16, false, hash16, accel);
        }
      } else {
        PrepareTable(|src|, ByU32);
        r := CompressGeneric(src, dst, ByU32, false, hash32, accel);
      }
    }
  }

  method FinishBlock(src: seq<byte>, dst: array<byte>, op: nat, anchor: nat, ghost seqs: seq<Sequence>) returns (r: nat)
    requires anchor <= |src| && op <= dst.Length && dst.Length >= |src| + |src| / 255 + 16
    requires Parsed(seqs, src, anchor) && dst[..op] == EncodeAll(seqs)
    modifies dst
    ensures 0 < r <= |src| + |src| / 255 + 16 && DecodesTo(dst[..r], src)
    ensures |Expand(seqs)| == anchor && dst[..r] == EncodeBlock(seqs, src[anchor..])
  {
    hide LiteralExtension, Expand, EncodeAll, ValidSequences, EndRules, DecodesTo;
    BlockSize(seqs, src[anchor..]);
    r := PutLastLiterals(dst, op, src, anchor, |src| - anchor);
    assert src[anchor..anchor + (|src| - anchor)] == src[anchor..];
    ParsedBlockDecodes(seqs, src, anchor, dst[..r]);
  }

  // LZ4_compress_fast_extState with a sufficient destination.
  method CompressFast(src: seq<byte>, dst: array<byte>, hash16: HashFunction, hash32: HashFunction, acceleration: int)
    returns (r: nat)
    requires HashFits(hash16, ByU16.Cells()) && HashFits(hash32, ByU32.Cells())
    requires dst.Length >= CompressBound(|src|)
    modifies dst
    ensures |src| > MAX_INPUT_SIZE ==> r == 0
    ensures |src| <= MAX_INPUT_SIZE ==> 0 < r <= CompressBound(|src|) && DecodesTo(dst[..r], src)
    ensures |src| <= MAX_INPUT_SIZE ==>
              IsGreedy(Block(src, 0, if |src| < LIMIT_64K then hash16 else hash32,
                             if acceleration < 1 then 1 else acceleration), NEW_TABLE, dst[..r])
    ensures |src| >= MFLIMIT + 1 && AllEqual(src) ==> r <= |src| / 255 + 11
  {
    hide IsGreedy, AllEqual, DecodesTo;
    var ctx := new StreamContext();
    var accel := if acceleration < 1 then 1 else acceleration;
    if |src| < LIMIT_64K {
      r := ctx.CompressGeneric(src, dst, ByU16, false, hash16, accel);
    } else {
      r := ctx.CompressGeneric(src, dst, ByU32, false, hash32, accel);
    }
  }

  // Compression followed by decompression into a buffer of any sufficient capacity.
  method RoundTrip(src: seq<byte>, capacity: nat, hash16: HashFunction, hash32: HashFunction, acceleration: int)
    returns (block: seq<byte>, out: seq<byte>)
    requires HashFits(hash16, ByU16.Cells()) && HashFits(hash32, ByU32.Cells())
    requires |src| <= MAX_INPUT_SIZE && capacity >= |src|
    ensures out == src && 0 < |block| <= |src| + |src| / 255 + 16
    ensures NaiveDecode(block, 0, []) == Some(src)
  {
    var packed := new byte[CompressBound(|src|)](i => 0);
    var n := CompressFast(src, packed, hash16, hash32, acceleration);
    block := packed[..n];
    var unpacked := new byte[capacity](i => 0);
    var m := DecompressSafe(block, unpacked);
    assert SafeDecode(block, capacity) == Some(src);
    SafeDecodeRefinesNaive(block, capacity);
    out := unpacked[..m];
  }
}
