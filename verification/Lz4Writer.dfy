/**
 Writing sequences into an output array. Both compressors share the literal part; each has its
 own loop for the bytes of a long match length.
 */
module Lz4Writer {
  import opened Bytes
  import opened Lz4Format
  import opened Lz4Decoder

  // ---------------------------------------------------------------- sizes

  lemma ExtensionSizes(litLen: nat, matchCode: nat)
    ensures litLen >= RUN_MASK ==> |LiteralExtension(litLen)| == (litLen - RUN_MASK) / 255 + 1
    ensures litLen < RUN_MASK ==> |LiteralExtension(litLen)| == 0
    ensures matchCode >= ML_MASK ==> |MatchExtension(matchCode)| == (matchCode - ML_MASK) / 255 + 1
    ensures matchCode < ML_MASK ==> |MatchExtension(matchCode)| == 0
  {
  }

  // At every sequence boundary the output has grown by at most 256/255 of what was consumed.
  lemma {:induction false} SequencesSize(seqs: seq<Sequence>)
    requires ValidSequences(seqs)
    ensures 255 * |EncodeAll(seqs)| <= 256 * |Expand(seqs)|
    decreases |seqs|
  {
    hide CopyMatch, LiteralExtension, MatchExtension;
    if seqs != [] {
      var init, s := seqs[..|seqs| - 1], seqs[|seqs| - 1];
      SequencesSize(init);
      OneSequenceSize(s);
      assert |Expand(seqs)| == |Expand(init)| + |s.lits| + s.matchLen;
    }
  }

  lemma OneSequenceSize(s: Sequence)
    requires s.matchLen >= MINMATCH
    ensures 255 * |EncodeSequence(s)| <= 256 * (|s.lits| + s.matchLen)
    ensures |EncodeSequence(s)|
         == 1 + |LiteralExtension(|s.lits|)| + |s.lits| + 2 + |MatchExtension(s.matchLen - MINMATCH)|
  {
    ExtensionSizes(|s.lits|, s.matchLen - MINMATCH);
  }

  // A block never exceeds LZ4_compressBound of the input it stands for.
  lemma {:induction false} BlockSize(seqs: seq<Sequence>, last: seq<byte>)
    requires ValidSequences(seqs)
    ensures var n := |Expand(seqs)| + |last|;
            1 <= |EncodeBlock(seqs, last)| <= n + n / 255 + 16
  {
    SequencesSize(seqs);
    ExtensionSizes(|last|, 0);
  }

  // Room for the wide writes of the next sequence in a buffer of LZ4_compressBound bytes: eight
  // bytes after the literals, four after the offset and each group of length bytes.
  lemma {:induction false} RoomForSequence(seqs: seq<Sequence>, litLen: nat, matchCode: nat, n: nat)
    requires ValidSequences(seqs)
    requires |Expand(seqs)| + litLen + MINMATCH + matchCode + LASTLITERALS <= n
    ensures var op := |EncodeAll(seqs)| + 1 + |LiteralExtension(litLen)| + litLen;
            && op + 8 <= n + n / 255 + 16
            && op + 2 + matchCode / 255 + 4 <= n + n / 255 + 16
  {
    SequencesSize(seqs);
    ExtensionSizes(litLen, matchCode);
  }

  // ---------------------------------------------------------------- appending a sequence

  // The bytes of src at ip repeat those at m, len bytes long.
  ghost predicate MatchesAt(src: seq<byte>, m: nat, ip: nat, len: nat) {
    && m < ip && ip + len <= |src|
    && forall k :: ip <= k < ip + len ==> src[k] == src[k - (ip - m)]
  }

  // A parse of src[..anchor] that leaves room for a legal end of block.
  ghost predicate Parsed(seqs: seq<Sequence>, src: seq<byte>, anchor: nat)
    requires anchor <= |src|
  {
    ValidSequences(seqs) && EndRules(seqs, |src|) && Expand(seqs) == src[..anchor]
  }

  // A match that starts at ip, found with anchor as the end of the last match.
  ghost predicate LegalMatch(src: seq<byte>, anchor: nat, m: nat, ip: nat, len: nat) {
    && anchor <= ip <= ip + MFLIMIT <= |src|
    && m < ip <= m + DISTANCE_MAX
    && MINMATCH <= len && ip + len + LASTLITERALS <= |src|
    && MatchesAt(src, m, ip, len)
  }

  lemma {:induction false} ExpandAppend(seqs: seq<Sequence>, s: Sequence, n: nat)
    requires ValidSequences(seqs) && EndRules(seqs, n)
    requires MINMATCH <= s.matchLen && 1 <= s.offset <= DISTANCE_MAX && s.offset <= |Expand(seqs)| + |s.lits|
    requires |Expand(seqs)| + |s.lits| + MFLIMIT <= n && |Expand(seqs)| + |s.lits| + s.matchLen + LASTLITERALS <= n
    ensures ValidSequences(seqs + [s]) && EndRules(seqs + [s], n)
    ensures Expand(seqs + [s]) == CopyMatch(Expand(seqs) + s.lits, s.offset, s.matchLen)
    ensures EncodeAll(seqs + [s]) == EncodeAll(seqs) + EncodeSequence(s)
  {
  }

  lemma {:induction false} SourceIsCopy(src: seq<byte>, m: nat, ip: nat, len: nat)
    requires MatchesAt(src, m, ip, len)
    ensures CopyMatch(src[..ip], ip - m, len) == src[..ip + len]
  {
    hide CopyMatch;
    assert src[..ip + len][..ip] == src[..ip];
    CopyMatchUnique(src[..ip], ip - m, len, src[..ip + len]);
  }

  lemma {:induction false} AppendSequence(seqs: seq<Sequence>, src: seq<byte>, anchor: nat, m: nat, ip: nat, len: nat)
    requires anchor <= |src| && Parsed(seqs, src, anchor) && LegalMatch(src, anchor, m, ip, len)
    ensures var s := Sequence(src[anchor..ip], ip - m, len);
            && Parsed(seqs + [s], src, ip + len)
            && EncodeAll(seqs + [s]) == EncodeAll(seqs) + EncodeSequence(s)
  {
    hide CopyMatch, EncodeSequence, Expand, EncodeAll, ValidSequences, EndRules;
    var s := Sequence(src[anchor..ip], ip - m, len);
    ExpandAppend(seqs, s, |src|);
    assert Expand(seqs) + s.lits == src[..ip];
    SourceIsCopy(src, m, ip, len);
  }

  // ---------------------------------------------------------------- bytes

  method PutExtension(dst: array<byte>, op0: nat, n: nat) returns (op: nat)
    requires op0 + n / 255 + 1 <= dst.Length
    modifies dst
    ensures op == op0 + n / 255 + 1
    ensures dst[..op] == old(dst[..op0]) + Extension(n)
  {
    ghost var target := dst[..op0] + Extension(n);
    op := op0;
    var len := n;
    while len >= 255
      invariant op + len / 255 + 1 == op0 + n / 255 + 1
      invariant dst[..op] + Extension(len) == target
    {
      ghost var before := dst[..op];
      dst[op] := 255;
      assert dst[..op + 1] == before + [255];
      assert before + Extension(len) == before + [255] + Extension(len - 255);
      op, len := op + 1, len - 255;
    }
    ghost var before := dst[..op];
    dst[op] := len;
    op := op + 1;
    assert dst[..op] == before + [len];
  }

  // Token and literals; the match half of the token is left at zero. The literals are copied
  // eight bytes at a time.
  method PutLiteralPart(dst: array<byte>, op0: nat, src: seq<byte>, anchor: nat, litLength: nat) returns (op: nat)
    requires anchor + litLength + 8 <= |src|
    requires op0 + 1 + |LiteralExtension(litLength)| + 8 <= dst.Length
    requires op0 + 1 + |LiteralExtension(litLength)| + litLength + 7 <= dst.Length
    modifies dst
    ensures op == op0 + 1 + |LiteralExtension(litLength)| + litLength
    ensures dst[..op] == old(dst[..op0]) + LiteralPart(src[anchor..anchor + litLength], 0)
  {
    hide Extension;
    ghost var before := dst[..op0];
    ghost var lits := src[anchor..anchor + litLength];
    op := PutToken(dst, op0, litLength);
    ghost var head := dst[..op];
    WildCopy8In(dst, op, src, anchor, op + litLength);
    assert dst[op..op + litLength] == lits;
    assert dst[..op + litLength] == dst[..op] + dst[op..op + litLength];
    op := op + litLength;
    assert head + lits == before + LiteralPart(lits, 0);
  }

  method PutToken(dst: array<byte>, op0: nat, litLength: nat) returns (op: nat)
    requires op0 + 1 + |LiteralExtension(litLength)| <= dst.Length
    modifies dst
    ensures op == op0 + 1 + |LiteralExtension(litLength)|
    ensures dst[..op] == old(dst[..op0]) + ([Min(litLength, RUN_MASK) * 16] + LiteralExtension(litLength))
  {
    hide Extension;
    ghost var before := dst[..op0];
    op := op0 + 1;
    if litLength >= RUN_MASK {
      dst[op0] := RUN_MASK * 16;
      assert dst[..op] == before + [RUN_MASK * 16];
      op := PutExtension(dst, op, litLength - RUN_MASK);
    } else {
      dst[op0] := litLength * 16;
      assert dst[..op] == before + [litLength * 16];
    }
  }

  method PutOffset(dst: array<byte>, op: nat, offset: nat)
    requires op + 2 <= dst.Length && offset <= DISTANCE_MAX
    modifies dst
    ensures dst[..op + 2] == old(dst[..op]) + LE16(offset)
  {
    ghost var before := dst[..op];
    dst[op], dst[op + 1] := offset % 256, offset / 256 % 256;
    assert dst[..op + 2] == before + LE16(offset);
  }

  // Adds the match half to a token written earlier, which completes the sequence.
  method AddToToken(dst: array<byte>, op: nat, token: nat, nibble: nat,
                    ghost before: seq<byte>, ghost lits: seq<byte>, ghost tail: seq<byte>)
    requires nibble <= ML_MASK && token == |before| && op <= dst.Length
    requires dst[..op] == before + LiteralPart(lits, 0) + tail
    modifies dst
    ensures dst[..op] == before + LiteralPart(lits, nibble) + tail
  {
    hide LiteralExtension;
    assert dst[token] == dst[..op][token] == LiteralPart(lits, 0)[0];
    dst[token] := dst[token] + nibble;
    assert LiteralPart(lits, nibble) == LiteralPart(lits, 0)[0 := LiteralPart(lits, 0)[0] + nibble];
    assert dst[..op] == (before + LiteralPart(lits, 0) + tail)[token := LiteralPart(lits, 0)[0] + nibble];
  }

  // The run of last literals, copied without overshoot.
  method PutLastLiterals(dst: array<byte>, op0: nat, src: seq<byte>, anchor: nat, lastRun: nat) returns (op: nat)
    requires anchor + lastRun <= |src|
    requires op0 + 1 + |LiteralExtension(lastRun)| + lastRun <= dst.Length
    modifies dst
    ensures op == op0 + 1 + |LiteralExtension(lastRun)| + lastRun
    ensures dst[..op] == old(dst[..op0]) + LiteralPart(src[anchor..anchor + lastRun], 0)
  {
    hide Extension;
    ghost var before := dst[..op0];
    ghost var lits := src[anchor..anchor + lastRun];
    op := PutToken(dst, op0, lastRun);
    ghost var head := dst[..op];
    MemCpyIn(dst, op, src, anchor, lastRun);
    assert dst[..op + lastRun] == head + lits;
    op := op + lastRun;
    assert head + lits == before + LiteralPart(lits, 0);
  }
}
