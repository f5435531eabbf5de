/**
 The optimal parser of LZ4 HC: one round after the other searches the price table, reverses its
 back-pointers in place into a forward parse, and emits that parse under the three output limits.
 */
module Lz4HcOptimal {
  import opened Bytes
  import opened Lz4Format
  import opened Lz4Writer
  import opened Lz4Compressor
  import opened Lz4HcParse
  import opened Lz4HcPrices
  import opened Lz4HcSearch

  // ---------------------------------------------------------------- emission

  // A block that holds the encoding of a sequence parses back to the same literals, offset and
  // match length, and the next token is where the price says.
  lemma EncodingParsesBack(s: Sequence, block: seq<byte>, ip: nat)
    requires s.matchLen >= MINMATCH && s.offset <= DISTANCE_MAX
    requires Holds(block, ip, EncodeSequence(s))
    ensures ip < |block| && LiteralsAt(block, ip).Some?
    ensures var lits := LiteralsAt(block, ip).value;
            && Holds(block, lits.start, s.lits) && lits.len == |s.lits|
            && MatchAt(block, ip, lits.start + lits.len)
               == Some(MatchRun(s.offset, s.matchLen, ip + SequencePrice(|s.lits|, s.matchLen)))
  {
    hide *;
    SequenceLayout(block, ip, s);
    PriceIsExact(s);
  }

  datatype Limit = NotLimited | LimitedOutput | FillOutput

  // The bytes of a long match length, two 255s at a time.
  method PutMatchExtensionByPairs(dst: array<byte>, op0: nat, n: nat) returns (op: nat)
    requires op0 + n / 255 + 1 <= dst.Length
    modifies dst
    ensures op == op0 + n / 255 + 1
    ensures dst[..op] == old(dst[..op0]) + Extension(n)
  {
    ghost var target := dst[..op0] + Extension(n);
    op := op0;
    var length := n;
    while length >= 510
      invariant op + length / 255 + 1 == op0 + n / 255 + 1
      invariant dst[..op] + Extension(length) == target
    {
      PutOnes(dst, op, 2, length);
      op, length := op + 2, length - 510;
    }
    if length >= 255 {
      PutOnes(dst, op, 1, length);
      op, length := op + 1, length - 255;
    }
    ghost var before := dst[..op];
    dst[op] := length;
    op := op + 1;
    assert dst[..op] == before + [length];
  }

  // One or two bytes of 255, which take the same number of steps off an extension.
  method PutOnes(dst: array<byte>, op: nat, count: nat, length: nat)
    requires 1 <= count <= 2 && length >= 255 * count && op + count <= dst.Length
    modifies dst
    ensures dst[..op + count] + Extension(length - 255 * count) == old(dst[..op]) + Extension(length)
  {
    ghost var before := dst[..op];
    dst[op] := 255;
    assert dst[..op + 1] == before + [255];
    assert before + Extension(length) == before + [255] + Extension(length - 255);
    if count == 2 {
      dst[op + 1] := 255;
      assert dst[..op + 2] == before + [255] + [255];
      assert before + [255] + Extension(length - 255) == before + [255] + [255] + Extension(length - 510);
    }
  }

  method PutMatchByPairs(dst: array<byte>, op0: nat, token: nat, offset: nat, matchCode: nat,
                         ghost before: seq<byte>, ghost lits: seq<byte>) returns (op: nat)
    requires token == |before| && op0 + 2 + |MatchExtension(matchCode)| <= dst.Length && offset <= DISTANCE_MAX
    requires dst[..op0] == before + LiteralPart(lits, 0)
    modifies dst
    ensures op == op0 + 2 + |MatchExtension(matchCode)|
    ensures dst[..op] == before + EncodeSequence(Sequence(lits, offset, matchCode + MINMATCH))
  {
    hide LiteralPart, Extension, LE16;
    PutOffset(dst, op0, offset);
    op := op0 + 2;
    var nibble := matchCode;
    if matchCode >= ML_MASK {
      op := PutMatchExtensionByPairs(dst, op, matchCode - ML_MASK);
      nibble := ML_MASK;
    }
    ghost var tail := LE16(offset) + MatchExtension(matchCode);
    assert dst[..op] == before + LiteralPart(lits, 0) + tail;
    AddToToken(dst, op, token, nibble, before, lits, tail);
    assert before + LiteralPart(lits, nibble) + tail
        == before + (LiteralPart(lits, nibble) + LE16(offset) + MatchExtension(matchCode));
  }

  // Under a limit, the two tests that refuse a sequence: for its literals, and for what follows them.
  predicate NoRoom(op: nat, litLen: nat, code: nat, oend: int) {
    || op + 1 + litLen / 255 + litLen + (2 + 1 + LASTLITERALS) > oend
    || op + 1 + |LiteralExtension(litLen)| + litLen + 2 + code / 255 + (1 + LASTLITERALS) > oend
  }

  // Of these sequences the first ones are written, and there is no room for the next.
  ghost predicate StopsFor(all: seq<Sequence>, seqs: seq<Sequence>, op: nat, oend: int) {
    && seqs <= all && |seqs| < |all|
    && var next := all[|seqs|];
       next.matchLen >= MINMATCH && NoRoom(op, |next.lits|, next.matchLen - MINMATCH, oend)
  }

  // A destination of LZ4_compressBound bytes always has room.
  lemma {:induction false} RoomInBound(src: seq<byte>, seqs: seq<Sequence>, anchor: nat, ip: nat, len: nat)
    requires anchor <= ip && MINMATCH <= len && ip + len + LASTLITERALS <= |src| && Parsed(seqs, src, anchor)
    ensures ValidSequences(seqs)
    ensures !NoRoom(|EncodeAll(seqs)|, ip - anchor, len - MINMATCH, |src| + |src| / 255 + 16)
  {
    hide EncodeAll, ValidSequences, EndRules, Expand, LiteralExtension;
    SequencesSize(seqs);
    ExtensionSizes(ip - anchor, len - MINMATCH);
    assert |Expand(seqs)| == anchor;
  }

  // LZ4HC_encodeSequence. On failure the output up to op0 is untouched and ip and anchor have not
  // moved; under a limit, success leaves at least five bytes before oend.
  method HcEncodeSequence(src: seq<byte>, dst: array<byte>, op0: nat, anchor: nat, ip: nat, matchLength: nat, m: nat,
                          limit: Limit, oend: int, ghost seqs0: seq<Sequence>)
    returns (fail: bool, op: nat, ghost seqs: seq<Sequence>)
    requires anchor <= |src| && Parsed(seqs0, src, anchor) && LegalMatch(src, anchor, m, ip, matchLength)
    requires op0 <= dst.Length && dst[..op0] == EncodeAll(seqs0)
    requires if limit == NotLimited then dst.Length >= |src| + |src| / 255 + 16 else oend <= dst.Length
    modifies dst
    ensures fail == (limit != NotLimited && NoRoom(op0, ip - anchor, matchLength - MINMATCH, oend))
    ensures fail ==> dst[..op0] == EncodeAll(seqs0)
    ensures !fail ==> op <= dst.Length && Parsed(seqs, src, ip + matchLength) && dst[..op] == EncodeAll(seqs)
    ensures !fail ==> seqs == seqs0 + [Sequence(src[anchor..ip], ip - m, matchLength)]
    ensures !fail ==> op == op0 + SequencePrice(ip - anchor, matchLength)
    ensures !fail && limit != NotLimited ==> op + LASTLITERALS <= oend
  {
    hide LiteralPart, EncodeSequence, Expand, EncodeAll, ValidSequences, EndRules, MatchExtension, MatchesAt,
         LiteralExtension, SequencePrice;
    var token := op0;
    var length := ip - anchor;
    var code := matchLength - MINMATCH;
    seqs, fail, op := seqs0, false, op0;
    RoomAfterLiterals(src, seqs0, anchor, length, code);
    ExtensionSizes(length, code);
    if limit != NotLimited && op + 1 + length / 255 + length + (2 + 1 + LASTLITERALS) > oend {
      fail := true;
      return;
    }
    op := PutLiteralPart(dst, op, src, anchor, length);
    if limit != NotLimited && op + 2 + code / 255 + (1 + LASTLITERALS) > oend {
      fail := true;
      assert dst[..op0] == dst[..op][..op0];
      return;
    }
    op := PutMatchByPairs(dst, op, token, ip - m, code, EncodeAll(seqs0), src[anchor..ip]);
    AppendSequence(seqs0, src, anchor, m, ip, matchLength);
    seqs := seqs0 + [Sequence(src[anchor..ip], ip - m, matchLength)];
    PriceIsExact(Sequence(src[anchor..ip], ip - m, matchLength));
  }

  // ---------------------------------------------------------------- reversal

  // The length and offset a cell holds, once it has been written.
  ghost function CellAt(t: Table, p: nat): Cell {
    if p < |t| && t[p].Set? then t[p].c else Cell(0, 0, 0, 0)
  }

  // Read forwards, the cells from a position describe contiguous legal steps that end exactly at end.
  ghost predicate Chain(t: Table, src: seq<byte>, ip: nat, from: nat, end: nat)
    decreases end - from
  {
    from == end || (
      && from < end && from < |t| && t[from].Set? && 1 <= t[from].c.mlen <= end - from
      && StepOk(src, ip + from, t[from].c.mlen, t[from].c.off)
      && Chain(t, src, ip, from + t[from].c.mlen, end))
  }

  lemma {:induction false} ChainFrame(before: Table, after: Table, src: seq<byte>, ip: nat, from: nat, end: nat)
    requires Chain(before, src, ip, from, end) && |before| == |after|
    requires forall p :: from <= p < |before| ==> before[p] == after[p]
    ensures Chain(after, src, ip, from, end)
    decreases end - from
  {
    if from != end {
      ChainFrame(before, after, src, ip, from + before[from].c.mlen, end);
    }
  }

  // The steps the cells describe read forwards.
  ghost function ForwardPath(t: Table, from: nat, end: nat): seq<StepAt>
    decreases end - from
  {
    if from >= end || CellAt(t, from).mlen == 0 then []
    else [StepAt(from, CellAt(t, from).mlen, CellAt(t, from).off)] + ForwardPath(t, from + CellAt(t, from).mlen, end)
  }

  lemma {:induction false} ForwardFrame(before: Table, after: Table, from: nat, end: nat)
    requires |before| == |after|
    requires forall p :: from <= p < |before| ==> before[p] == after[p]
    ensures ForwardPath(after, from, end) == ForwardPath(before, from, end)
    decreases end - from
  {
    if from < end && CellAt(before, from).mlen != 0 {
      ForwardFrame(before, after, from + CellAt(before, from).mlen, end);
    }
  }

  // "Reverse traversal": read forwards, the cells now hold exactly the steps that the
  // back-pointers held, followed by the selected one, and every step is legal where it stands.
  method ReverseTraversal(opt: array<Slot>, src: seq<byte>, ip: nat, s: Selection)
    requires SelectionOk(opt[..], src, ip, s)
    modifies opt
    ensures Chain(opt[..], src, ip, 0, s.cur + s.mlen)
    ensures s.cur < opt.Length
    ensures ForwardPath(opt[..], 0, s.cur + s.mlen)
         == BackPath(old(opt[..]), s.cur) + [StepAt(s.cur, s.mlen, s.off)]
  {
    hide StepOk, Chain, BackPath, ForwardPath;
    var candidate: nat, mlen: nat, off: nat := s.cur, s.mlen, s.off;
    ghost var end := s.cur + s.mlen;
    ghost var original := opt[..];
    ghost var all := BackPath(original, s.cur) + [StepAt(s.cur, s.mlen, s.off)];
    EndOfPath(original, src, ip, end);
    ghost var after: seq<StepAt> := [];
    assert all == BackPath(original, candidate) + [StepAt(candidate, mlen, off)] + after;
    while true
      invariant candidate <= s.cur && candidate + mlen <= end && 1 <= mlen
      invariant StepOk(src, ip + candidate, mlen, off)
      invariant opt[..candidate + 1] == original[..candidate + 1]
      invariant Chain(opt[..], src, ip, candidate + mlen, end)
      invariant after == ForwardPath(opt[..], candidate + mlen, end)
      invariant all == BackPath(original, candidate) + [StepAt(candidate, mlen, off)] + after
      decreases candidate
    {
      assert opt[candidate] == opt[..candidate + 1][candidate] == original[candidate];
      assert candidate >= 1 ==> CellOk(src, ip, original[candidate].c, candidate);
      var nextLen, nextOff := opt[candidate].c.mlen, opt[candidate].c.off;
      ghost var before := opt[..];
      opt[candidate] := Set(opt[candidate].c.(mlen := mlen, off := off));
      WriteStep(before, opt[..], src, ip, candidate, mlen, off, end);
      after := [StepAt(candidate, mlen, off)] + after;
      if nextLen > candidate {
        StartOfPath(original);
        assert all == after;
        break;
      }
      BackOneStep(original, candidate, nextLen, nextOff);
      assert opt[..candidate - nextLen + 1] == original[..candidate - nextLen + 1];
      candidate, mlen, off := candidate - nextLen, nextLen, nextOff;
    }
  }

  lemma {:induction false} EndOfPath(t: Table, src: seq<byte>, ip: nat, end: nat)
    ensures Chain(t, src, ip, end, end) && ForwardPath(t, end, end) == []
  {
  }

  lemma {:induction false} StartOfPath(t: Table)
    requires |t| > 0
    ensures BackPath(t, 0) == []
  {
  }

  lemma BackOneStep(t: Table, p: nat, len: nat, off: nat)
    requires p < |t| && t[p].Set? && 1 <= len <= p && t[p].c.mlen == len && t[p].c.off == off
    ensures BackPath(t, p) == BackPath(t, p - len) + [StepAt(p - len, len, off)]
  {
  }

  // Writing a forward step at a position puts it in front of the path that starts where it ends.
  lemma WriteStep(before: Table, after: Table, src: seq<byte>, ip: nat, p: nat, mlen: nat, off: nat, end: nat)
    requires p < |before| && before[p].Set? && after == before[p := Set(before[p].c.(mlen := mlen, off := off))]
    requires 1 <= mlen && p + mlen <= end && StepOk(src, ip + p, mlen, off)
    requires Chain(before, src, ip, p + mlen, end)
    ensures Chain(after, src, ip, p, end)
    ensures ForwardPath(after, p, end) == [StepAt(p, mlen, off)] + ForwardPath(before, p + mlen, end)
  {
    hide StepOk;
    ChainFrame(before, after, src, ip, p + mlen, end);
    ForwardFrame(before, after, p + mlen, end);
  }

  // ---------------------------------------------------------------- compression

  // Every step of a forward path starts at or after the position it is read from.
  lemma {:induction false} ForwardPositions(t: Table, from: nat, end: nat)
    ensures forall k :: 0 <= k < |ForwardPath(t, from, end)| ==> ForwardPath(t, from, end)[k].pos >= from
    decreases end - from
  {
    if from < end && CellAt(t, from).mlen != 0 {
      ForwardPositions(t, from + CellAt(t, from).mlen, end);
    }
  }

  // A path whose last step starts before a position is used up once that position is reached.
  lemma {:induction false} AllDone(t: Table, done: seq<StepAt>, rPos: nat, end: nat, path: seq<StepAt>)
    requires path == done + ForwardPath(t, rPos, end) && path != [] && path[|path| - 1].pos < rPos
    ensures path == done
  {
    ForwardPositions(t, rPos, end);
    var rest := ForwardPath(t, rPos, end);
    LastOfTwo(done, rest);
  }

  lemma LastOfTwo<T>(a: seq<T>, b: seq<T>)
    ensures b != [] ==> (a + b)[|a + b| - 1] == b[|b| - 1]
  {
  }

  lemma OneStepOn(t: Table, src: seq<byte>, ip: nat, done: seq<StepAt>, rPos: nat, end: nat)
    requires Chain(t, src, ip, rPos, end) && rPos < end
    ensures rPos < |t| && t[rPos].Set? && 1 <= t[rPos].c.mlen <= end - rPos
    ensures StepOk(src, ip + rPos, t[rPos].c.mlen, t[rPos].c.off) && Chain(t, src, ip, rPos + t[rPos].c.mlen, end)
    ensures done + ForwardPath(t, rPos, end)
         == done + [StepAt(rPos, t[rPos].c.mlen, t[rPos].c.off)] + ForwardPath(t, rPos + t[rPos].c.mlen, end)
  {
    hide StepOk;
  }

  // Encodes a match found at ip, or leaves the output as it was if there is no room for it.
  method SendMatch(src: seq<byte>, dst: array<byte>, op0: nat, anchor: nat, ip: nat, m: HcMatch, limit: Limit,
                   oend: int, ghost seqs0: seq<Sequence>)
    returns (fail: bool, op: nat, ghost seqs: seq<Sequence>)
    requires anchor <= ip && ip + MFLIMIT <= |src| && GoodMatch(src, ip, m.off, m.len)
    requires Parsed(seqs0, src, anchor) && op0 <= dst.Length && dst[..op0] == EncodeAll(seqs0)
    requires if limit == NotLimited then dst.Length >= |src| + |src| / 255 + 16 else oend <= dst.Length
    modifies dst
    ensures limit == NotLimited || oend >= |src| + |src| / 255 + 16 ==> !fail
    ensures fail ==> dst[..op0] == EncodeAll(seqs0)
    ensures fail ==> StopsFor(seqs0 + [Sequence(src[anchor..ip], m.off, m.len)], seqs0, op0, oend)
    ensures !fail ==> op <= dst.Length && ip + m.len <= |src| && Parsed(seqs, src, ip + m.len)
                      && dst[..op] == EncodeAll(seqs)
    ensures !fail ==> seqs == seqs0 + [Sequence(src[anchor..ip], m.off, m.len)]
    ensures !fail && limit != NotLimited ==> op + LASTLITERALS <= oend
  {
    hide EncodeAll, ValidSequences, EndRules, Expand, MatchesAt, NoRoom, SequencePrice;
    MatchBounds(src, ip, m.off, m.len);
    RoomInBound(src, seqs0, anchor, ip, m.len);
    fail, op, seqs := HcEncodeSequence(src, dst, op0, anchor, ip, m.len, ip - m.off, limit, oend, seqs0);
    MoreRoom(op0, ip - anchor, m.len - MINMATCH, |src| + |src| / 255 + 16, oend);
  }

  /**
   "Encode all recorded sequences in order": what is appended is one sequence for each match of the
   forward path, with the literals before it, up to the end of the path; when the output runs full,
   those of a part of it.
   */
  method EncodeChosen(opt: array<Slot>, src: seq<byte>, dst: array<byte>, ip0: nat, last: nat, ghost end: nat,
                      op0: nat, anchor0: nat, limit: Limit, oend: int, ghost seqs0: seq<Sequence>)
    returns (fail: bool, ip: nat, op: nat, anchor: nat, ghost seqs: seq<Sequence>)
    requires Chain(opt[..], src, ip0, 0, end) && 1 <= last <= end && ip0 + end + LASTLITERALS <= |src|
    requires var path := ForwardPath(opt[..], 0, end); path != [] && path[|path| - 1].pos < last
    requires anchor0 <= ip0 && Parsed(seqs0, src, anchor0) && op0 <= dst.Length && dst[..op0] == EncodeAll(seqs0)
    requires if limit == NotLimited then dst.Length >= |src| + |src| / 255 + 16 else oend <= dst.Length
    requires limit != NotLimited ==> seqs0 == [] || op0 + LASTLITERALS <= oend
    modifies dst
    ensures op <= dst.Length && anchor <= |src| && Parsed(seqs, src, anchor) && dst[..op] == EncodeAll(seqs)
    ensures limit == NotLimited || oend >= |src| + |src| / 255 + 16 ==> !fail
    ensures !fail ==> anchor <= ip && ip == ip0 + end
    ensures exists done ::
              && done <= ForwardPath(opt[..], 0, end) && (!fail ==> done == ForwardPath(opt[..], 0, end))
              && Emitted(src, ip0, anchor0, seqs0, done, anchor, seqs)
    ensures fail ==> StopsFor(seqs0 + Sent(src, ip0, anchor0, ForwardPath(opt[..], 0, end)), seqs, op, oend)
    ensures limit != NotLimited ==> seqs == [] || op + LASTLITERALS <= oend
  {
    hide StepOk, LegalMatch, Expand, EncodeAll, ValidSequences, EndRules, Chain, ForwardPath, Emitted, SequencePrice,
         CellAt, StopsFor, GoodMatch;
    fail, ip, op, anchor, seqs := false, ip0, op0, anchor0, seqs0;
    ghost var path := ForwardPath(opt[..], 0, end);
    ghost var done: seq<StepAt> := [];
    NothingEmitted(src, ip0, anchor0, seqs0);
    assert [] + path == path;
    var rPos := 0;
    while rPos < last
      invariant rPos <= end && Chain(opt[..], src, ip0, rPos, end)
      invariant path == done + ForwardPath(opt[..], rPos, end)
      invariant Emitted(src, ip0, anchor0, seqs0, done, anchor, seqs)
      invariant ip == ip0 + rPos && anchor <= ip && op <= dst.Length
      invariant Parsed(seqs, src, anchor) && dst[..op] == EncodeAll(seqs)
      invariant limit != NotLimited ==> seqs == [] || op + LASTLITERALS <= oend
      decreases end - rPos
    {
      OneStepOn(opt[..], src, ip0, done, rPos, end);
      var ml, offset := opt[rPos].c.mlen, opt[rPos].c.off;
      EmitStep(src, ip0, anchor0, seqs0, done, anchor, seqs, StepAt(rPos, ml, offset));
      if ml == 1 {
        done := done + [StepAt(rPos, ml, offset)];
        ip, rPos := ip + 1, rPos + 1;
        continue;
      }
      var opSaved := op;
      ghost var seqs1;
      StepIsMatch(src, ip, ml, offset);
      fail, op, seqs1 := SendMatch(src, dst, op, anchor, ip, HcMatch(offset, ml), limit, oend, seqs);
      if fail {
        op := opSaved;
        assert done + [StepAt(rPos, ml, offset)] <= path;
        NextSent(src, ip0, anchor0, seqs0, done, anchor, seqs, StepAt(rPos, ml, offset), path, op, oend);
        return;
      }
      done := done + [StepAt(rPos, ml, offset)];
      rPos := rPos + ml;
      ip := ip + ml;
      anchor, seqs := ip, seqs1;
    }
    AllDone(opt[..], done, rPos, end, path);
    PathEnds(opt[..], src, ip0, rPos, end, done, path);
  }

  lemma MoreRoom(op: nat, litLen: nat, code: nat, oend: int, more: int)
    requires !NoRoom(op, litLen, code, oend)
    ensures more >= oend ==> !NoRoom(op, litLen, code, more)
  {
  }

  lemma StepIsMatch(src: seq<byte>, ip: nat, ml: nat, offset: nat)
    requires StepOk(src, ip, ml, offset) && ml != 1
    ensures GoodMatch(src, ip, offset, ml) && ip + MFLIMIT <= |src| && ip + ml + LASTLITERALS <= |src|
  {
    hide MatchesAt;
  }

  // The sequences emitted for a part of a path, and where the next literals begin.
  ghost predicate Emitted(src: seq<byte>, ip: nat, anchor0: nat, seqs0: seq<Sequence>, done: seq<StepAt>,
                          anchor: nat, seqs: seq<Sequence>) {
    seqs == seqs0 + Sent(src, ip, anchor0, done) && anchor == AnchorAfter(ip, anchor0, done)
  }

  lemma NothingEmitted(src: seq<byte>, ip: nat, anchor0: nat, seqs0: seq<Sequence>)
    ensures Emitted(src, ip, anchor0, seqs0, [], anchor0, seqs0)
  {
    NothingSent(src, ip, anchor0);
    assert seqs0 + [] == seqs0;
  }

  // What part of a path sends is part of what it sends.
  lemma {:induction false} PartSent(src: seq<byte>, ip: nat, anchor: nat, path: seq<StepAt>)
    ensures forall done :: done <= path ==> Sent(src, ip, anchor, done) <= Sent(src, ip, anchor, path)
    decreases |path|
  {
    if path != [] {
      var before := path[..|path| - 1];
      PartSent(src, ip, anchor, before);
      forall done | done <= path ensures Sent(src, ip, anchor, done) <= Sent(src, ip, anchor, path) {
        assert done == path || done <= before;
      }
    }
  }

  // What stops the next step of a path stops the path.
  lemma {:induction false} NextSent(src: seq<byte>, ip: nat, anchor0: nat, seqs0: seq<Sequence>, done: seq<StepAt>,
                                    anchor: nat, seqs: seq<Sequence>, step: StepAt, path: seq<StepAt>, op: nat,
                                    oend: int)
    requires Emitted(src, ip, anchor0, seqs0, done, anchor, seqs) && anchor <= ip + step.pos <= |src|
    requires StopsFor(seqs + [Sequence(src[anchor..ip + step.pos], step.off, step.mlen)], seqs, op, oend)
    requires step.mlen != 1 && done + [step] <= path
    ensures StopsFor(seqs0 + Sent(src, ip, anchor0, path), seqs, op, oend)
  {
    hide Sent, AnchorAfter, NoRoom;
    SentStep(src, ip, anchor0, done, step);
    PartSent(src, ip, anchor0, path);
    var more := Sent(src, ip, anchor0, done + [step]);
    var all := seqs0 + Sent(src, ip, anchor0, path);
    assert more <= Sent(src, ip, anchor0, path) && more[|more| - 1] == Sent(src, ip, anchor0, path)[|more| - 1];
    assert all[|seqs|] == Sequence(src[anchor..ip + step.pos], step.off, step.mlen);
  }

  lemma EmitStep(src: seq<byte>, ip: nat, anchor0: nat, seqs0: seq<Sequence>, done: seq<StepAt>,
                 anchor: nat, seqs: seq<Sequence>, step: StepAt)
    requires Emitted(src, ip, anchor0, seqs0, done, anchor, seqs) && anchor <= ip + step.pos <= |src|
    ensures if step.mlen == 1 then Emitted(src, ip, anchor0, seqs0, done + [step], anchor, seqs)
            else Emitted(src, ip, anchor0, seqs0, done + [step], ip + step.pos + step.mlen,
                         seqs + [Sequence(src[anchor..ip + step.pos], step.off, step.mlen)])
  {
    hide Sent, AnchorAfter;
    SentStep(src, ip, anchor0, done, step);
    var s := Sequence(src[anchor..ip + step.pos], step.off, step.mlen);
    assert seqs0 + Sent(src, ip, anchor0, done) + [s] == seqs0 + (Sent(src, ip, anchor0, done) + [s]);
  }

  // A path that is used up has reached its end.
  lemma {:induction false} PathEnds(t: Table, src: seq<byte>, ip: nat, rPos: nat, end: nat, done: seq<StepAt>,
                                    path: seq<StepAt>)
    requires Chain(t, src, ip, rPos, end) && rPos <= end && path == done && path == done + ForwardPath(t, rPos, end)
    ensures rPos == end
  {
    assert |path| == |done| + |ForwardPath(t, rPos, end)|;
  }

  // Room for the last literals once a fillOutput buffer is the limit.
  lemma FilledRun(room: nat, lastRun: nat)
    requires room >= 1 && 1 + (lastRun + 240) / 255 + lastRun > room
    ensures var r := (room - 1) - (room - 1 + 255 - RUN_MASK) / 255;
            && 0 <= r <= lastRun && room - 1 - (room + 240) / 65025 <= 1 + |LiteralExtension(r)| + r <= room
            && (room >= 10 ==> r >= 8)
  {
    var r := (room - 1) - (room - 1 + 240) / 255;
    ExtensionSizes(r, 0);
  }

  // The end-of-block rules of a shorter input hold when at least eight literals follow the last match.
  lemma {:induction false} RulesForPrefix(seqs: seq<Sequence>, n: nat, shorter: nat)
    requires ValidSequences(seqs) && EndRules(seqs, n)
    requires seqs == [] || |Expand(seqs)| + MFLIMIT - MINMATCH <= shorter
    ensures EndRules(seqs, shorter)
    decreases |seqs|
  {
    hide CopyMatch;
    if seqs != [] {
      RulesForPrefix(seqs[..|seqs| - 1], n, shorter);
    }
  }

  lemma PrefixBlockDecodes(seqs: seq<Sequence>, src: seq<byte>, anchor: nat, consumed: nat, block: seq<byte>)
    requires anchor <= consumed <= |src| && Parsed(seqs, src, anchor)
    requires seqs == [] || consumed == |src| || anchor + MFLIMIT - MINMATCH <= consumed
    requires block == EncodeBlock(seqs, src[anchor..consumed])
    ensures DecodesTo(block, src[..consumed])
  {
    hide EncodeBlock, DecodesTo, Expand, ValidSequences, EndRules;
    var prefix := src[..consumed];
    if consumed != |src| {
      RulesForPrefix(seqs, |src|, consumed);
    } else {
      assert prefix == src;
    }
    assert prefix[..anchor] == src[..anchor] && prefix[anchor..] == src[anchor..consumed];
    ParsedBlockDecodes(seqs, prefix, anchor, block);
  }

  // "Encode last literals", shortened to what fits when the buffer is to be filled.
  method HcLastLiterals(src: seq<byte>, dst: array<byte>, op: nat, anchor: nat, limit: Limit, ghost seqs: seq<Sequence>)
    returns (r: nat, consumed: nat)
    requires anchor <= |src| && op <= dst.Length && Parsed(seqs, src, anchor) && dst[..op] == EncodeAll(seqs)
    requires limit == NotLimited ==> dst.Length >= |src| + |src| / 255 + 16
    requires limit == FillOutput ==> dst.Length >= 1 && (seqs == [] || op + 2 * LASTLITERALS <= dst.Length)
    modifies dst
    ensures r <= dst.Length && consumed <= |src|
    ensures ValidSequences(seqs)
    ensures r == 0 <==> limit == LimitedOutput && |EncodeBlock(seqs, src[anchor..])| > dst.Length
    ensures r != 0 ==> DecodesTo(dst[..r], src[..consumed])
    ensures r != 0 ==> anchor <= consumed && dst[..r] == EncodeBlock(seqs, src[anchor..consumed])
    ensures limit != FillOutput ==> r == 0 || consumed == |src|
    ensures limit == FillOutput ==> consumed == |src| || r + 1 + (dst.Length + 240) / 65025 >= dst.Length
    ensures limit == FillOutput && |EncodeBlock(seqs, src[anchor..])| <= dst.Length ==> consumed == |src|
  {
    hide DecodesTo, LiteralExtension, Expand, EncodeAll, ValidSequences, EndRules, LiteralPart;
    var oend := dst.Length;
    var lastRun := |src| - anchor;
    var litLength := (lastRun + 255 - RUN_MASK) / 255;
    EncodedLast(src, anchor, seqs);
    if limit != NotLimited && op + 1 + litLength + lastRun > oend {
      if limit == LimitedOutput {
        return 0, 0;
      }
      assert seqs == [] ==> op == 0;
      FilledRun(oend - op, lastRun);
      lastRun := oend - op - 1;
      litLength := (lastRun + 255 - RUN_MASK) / 255;
      lastRun := lastRun - litLength;
    }
    consumed := anchor + lastRun;
    r := PutLastLiterals(dst, op, src, anchor, lastRun);
    PrefixBlockDecodes(seqs, src, anchor, consumed, dst[..r]);
  }

  lemma {:induction false} EncodedLast(src: seq<byte>, anchor: nat, seqs: seq<Sequence>)
    requires anchor <= |src| && Parsed(seqs, src, anchor)
    ensures var n := |src| - anchor;
            && |LiteralExtension(n)| == (n + 240) / 255
            && |EncodeBlock(seqs, src[anchor..])| == |EncodeAll(seqs)| + 1 + |LiteralExtension(n)| + n
            && |EncodeAll(seqs)| + 1 + |LiteralExtension(n)| + n <= |src| + |src| / 255 + 16
    ensures seqs == [] ==> EncodeAll(seqs) == [] && anchor == 0
  {
    hide LiteralExtension, ValidSequences, EndRules;
    BlockSize(seqs, src[anchor..]);
    ExtensionSizes(|src| - anchor, 0);
  }

  /**
   One round that starts from a match of no more than the sufficient length. Every cell it reads it
   has set itself: the table is blank at its start. If the output suffices, it grows by exactly the
   price of the selected path.
   */
  method OneRound(dst: array<byte>, x: Round, first: HcMatch, op0: nat, call0: nat, limit: Limit, oend: int,
                  ghost seqs0: seq<Sequence>)
    returns (fail: bool, ip: nat, op: nat, anchor: nat, ghost seqs: seq<Sequence>, call: nat)
    requires RoundOk(x) && GoodMatch(x.src, x.ip, first.off, first.len) && x.ip + MFLIMIT <= |x.src|
    requires first.len < LZ4_OPT_NUM
    requires Parsed(seqs0, x.src, x.ip - x.llen) && op0 <= dst.Length && dst[..op0] == EncodeAll(seqs0)
    requires if limit == NotLimited then dst.Length >= |x.src| + |x.src| / 255 + 16 else oend <= dst.Length
    requires limit != NotLimited ==> seqs0 == [] || op0 + LASTLITERALS <= oend
    modifies dst
    ensures op <= dst.Length && anchor <= |x.src| && Parsed(seqs, x.src, anchor) && dst[..op] == EncodeAll(seqs)
    ensures limit != NotLimited ==> seqs == [] || op + LASTLITERALS <= oend
    ensures limit == NotLimited || oend >= |x.src| + |x.src| / 255 + 16 ==> !fail
    ensures var r := SearchFrom(x, first, call0);
            && r.s.cur < |r.t| && call == r.call
            && seqs0 <= seqs <= seqs0 + Sent(x.src, x.ip, x.ip - x.llen, Selected(r))
            && (fail ==> StopsFor(seqs0 + Sent(x.src, x.ip, x.ip - x.llen, Selected(r)), seqs, op, oend))
            && (!fail ==>
                  && seqs == seqs0 + Sent(x.src, x.ip, x.ip - x.llen, Selected(r))
                  && op == op0 + Price(r.t, r.s.cur) + 3 + Extra(r.s.mlen)
                  && anchor == ip == x.ip + r.s.cur + r.s.mlen)
    ensures !fail ==> x.ip < ip <= |x.src|
  {
    hide Expand, EncodeAll, ValidSequences, EndRules, MatchesAt, Searching, Explore, Chain, ForwardPath, BackPath,
         AfterMatch, Sent, SentBytes, AnchorAfter, StepsOk, GoodMatch, FirstLiterals, FinderSound;
    MatchBounds(x.src, x.ip, first.off, first.len);
    FirstIsSearching(x, first);
    var opt := new Slot[LZ4_OPT_NUM + TRAILING_LITERALS](_ => Unset);
    InitialPrices(opt, x.llen, first, x.favorDecSpeed);
    ghost var t := opt[..];
    var s;
    s, call := CheckFurtherPositions(opt, x, first.len, call0);
    ghost var r := Explore(x, t, 1, first.len, call0);
    ExploreFinds(x, t, 1, first.len, call0);
    SelectedBytes(x, t, 1, first.len, call0);
    ghost var path := BackPath(r.t, s.cur) + [StepAt(s.cur, s.mlen, s.off)];
    ReverseTraversal(opt, x.src, x.ip, s);
    fail, ip, op, anchor, seqs :=
      EncodeChosen(opt, x.src, dst, x.ip, s.last, s.cur + s.mlen, op0, x.ip - x.llen, limit, oend, seqs0);
    PartSent(x.src, x.ip, x.ip - x.llen, path);
    if !fail {
      EncodedBytes(seqs0, Sent(x.src, x.ip, x.ip - x.llen, path));
      EndOfSelection(x.ip, x.ip - x.llen, BackPath(r.t, s.cur), StepAt(s.cur, s.mlen, s.off));
    }
  }

  lemma {:induction false} EndOfSelection(ip: nat, anchor: nat, before: seq<StepAt>, step: StepAt)
    requires step.mlen != 1
    ensures AnchorAfter(ip, anchor, before + [step]) == ip + step.pos + step.mlen
  {
    assert (before + [step])[|before + [step]| - 1] == step;
  }

  // The main loop: the output holds the sequences of the parse, up to where a limit stopped it.
  method ParseTurns(w: Parser, dst: array<byte>, limit: Limit, oend: int)
    returns (overflow: bool, op: nat, anchor: nat, ghost seqs: seq<Sequence>)
    requires ParserOk(w)
    requires if limit == NotLimited then dst.Length >= |w.src| + |w.src| / 255 + 16 else oend <= dst.Length
    modifies dst
    ensures op <= dst.Length && anchor <= |w.src| && Parsed(seqs, w.src, anchor) && dst[..op] == EncodeAll(seqs)
    ensures limit != NotLimited ==> seqs == [] || op + LASTLITERALS <= oend
    ensures limit == NotLimited || oend >= |w.src| + |w.src| / 255 + 16 ==> !overflow
    ensures seqs <= Parse(w, START) && (overflow ==> StopsFor(Parse(w, START), seqs, op, oend))
    ensures !overflow ==> seqs == Parse(w, START) && anchor == AfterTurns(w, START).anchor
  {
    hide Expand, EndRules, EncodeAll, ValidSequences, MatchesAt, SelectionOk, GoodMatch, FinderSound, Parse, Outcomes,
         FindLongerMatch, Sent, Selected, SearchFrom, NoRoom, Price, Extra, SequencePrice,
         AfterTurns, OnTrack;
    var ip: nat, call: nat := 0, 0;
    overflow, op, anchor, seqs := false, 0, 0, [];
    EmptyParse(w.src);
    assert dst[..0] == [];
    TrackStarts(w);
    while ip <= |w.src| - MFLIMIT && !overflow
      invariant anchor <= |w.src| && op <= dst.Length && Parsed(seqs, w.src, anchor) && dst[..op] == EncodeAll(seqs)
      invariant limit != NotLimited ==> seqs == [] || op + LASTLITERALS <= oend
      invariant limit == NotLimited || oend >= |w.src| + |w.src| / 255 + 16 ==> !overflow
      invariant overflow ==> seqs <= Parse(w, START) && StopsFor(Parse(w, START), seqs, op, oend)
      invariant !overflow ==> anchor <= ip <= |w.src| && OnTrack(w, seqs, Turn(call, ip, anchor))
      decreases if overflow then 0 else 1, |w.src| - ip
    {
      ghost var a := Turn(call, ip, anchor);
      var first := FindLongerMatch(w.finder, call, ip, MINMATCH - 1, w.favorDecSpeed);
      call := call + 1;
      if first.len == 0 {
        TrackSkips(w, seqs, a);
        ip := ip + 1;
        continue;
      }
      FirstIsGood(w, a);
      ghost var seqs1;
      if first.len > w.sufficientLen {
        var opSaved := op;
        TrackSends(w, seqs, a);
        seqs1 := seqs + [Sequence(w.src[anchor..ip], first.off, first.len)];
        ghost var seqs2;
        overflow, op, seqs2 := SendMatch(w.src, dst, op, anchor, ip, first, limit, oend, seqs);
        if overflow {
          op := opSaved;
          StopsForMore(w, seqs1, Turn(call, ip + first.len, ip + first.len), seqs, op, oend);
        } else {
          ip := ip + first.len;
          anchor, seqs := ip, seqs2;
        }
      } else {
        TrackSelects(w, seqs, a);
        var x := Round(w.src, ip, ip - anchor, w.finder, w.sufficientLen, w.fullUpdate, w.favorDecSpeed);
        ghost var all := seqs + Sent(w.src, ip, anchor, Selected(SearchFrom(x, first, call)));
        ghost var r := SearchFrom(x, first, call);
        overflow, ip, op, anchor, seqs, call := OneRound(dst, x, first, op, call, limit, oend, seqs);
        FrontOfTrack(w, all, Turn(r.call, x.ip + r.s.cur + r.s.mlen, x.ip + r.s.cur + r.s.mlen), seqs);
        if overflow {
          StopsForMore(w, all, Turn(r.call, x.ip + r.s.cur + r.s.mlen, x.ip + r.s.cur + r.s.mlen), seqs, op, oend);
        }
      }
    }
    if !overflow {
      TrackEnds(w, seqs, Turn(call, ip, anchor));
    }
  }

  // What stops a part of the parse stops the parse.
  lemma {:induction false} StopsForMore(w: Parser, all: seq<Sequence>, a: Turn, seqs: seq<Sequence>, op: nat, oend: int)
    requires ParserOk(w) && OnTrack(w, all, a) && StopsFor(all, seqs, op, oend)
    ensures seqs <= Parse(w, START) && StopsFor(Parse(w, START), seqs, op, oend)
  {
    hide NoRoom, Parse, AfterTurns;
    assert Parse(w, START)[|seqs|] == all[|seqs|];
  }

  lemma RunPrice(n: nat)
    ensures n >= MFLIMIT + 1 ==>
              SequencePrice(1, n - LASTLITERALS - 1) + 1 + |LiteralExtension(LASTLITERALS)| + LASTLITERALS
              <= n / 255 + 11
  {
    ExtensionSizes(LASTLITERALS, 0);
  }

  lemma {:induction false} BlockBytes(seqs: seq<Sequence>, last: seq<byte>)
    requires ValidSequences(seqs)
    ensures |EncodeBlock(seqs, last)| == SentBytes(seqs) + 1 + |LiteralExtension(|last|)| + |last|
  {
    hide EncodeAll, ValidSequences, SentBytes;
    assert [] + seqs == seqs;
    EncodedBytes([], seqs);
    assert EncodeAll([]) == [] by {
      EmptyParse([]);
    }
  }

  /**
   LZ4HC_compress_optimal. The block holds the sequences of the parse, or, when the buffer is to be
   filled, of a front part of it, and decodes to what was consumed. A limit changes nothing else; zero is
   returned only under limitedOutput, when what the parse gives does not fit.
   */
  method CompressOptimal(src: seq<byte>, dst: array<byte>, finder: MatchFinder, targetLength: nat, limit: Limit,
                         fullUpdate: bool, favorDecSpeed: bool)
    returns (r: nat, consumed: nat, ghost seqs: seq<Sequence>)
    requires FinderSound(src, finder)
    requires limit == NotLimited ==> dst.Length >= |src| + |src| / 255 + 16
    requires limit == FillOutput ==> dst.Length >= 1
    modifies dst
    ensures r <= dst.Length && consumed <= |src|
    ensures r == 0 ==> limit == LimitedOutput && consumed == 0 && dst.Length < |src| + |src| / 255 + 16
    ensures ParserOk(ParserFor(src, finder, targetLength, fullUpdate, favorDecSpeed)) && ValidSequences(seqs)
    ensures var all := Parse(ParserFor(src, finder, targetLength, fullUpdate, favorDecSpeed), START);
            var oend := if limit == FillOutput then dst.Length - LASTLITERALS else dst.Length;
            && (seqs == all || (limit != NotLimited && StopsFor(all, seqs, |EncodeAll(seqs)|, oend)))
            && (r == 0 && seqs == all ==>
                  |Expand(seqs)| <= |src| && |EncodeBlock(seqs, src[|Expand(seqs)|..])| > dst.Length)
    ensures r != 0 ==> DecodesTo(dst[..r], src[..consumed])
    ensures r != 0 && limit != FillOutput ==> consumed == |src|
    ensures limit == FillOutput ==> consumed == |src| || r + 1 + (dst.Length + 240) / 65025 >= dst.Length
    ensures limit == FillOutput && dst.Length - LASTLITERALS >= |src| + |src| / 255 + 16 ==> consumed == |src|
    ensures r != 0 ==> |Expand(seqs)| <= consumed && dst[..r] == EncodeBlock(seqs, src[|Expand(seqs)|..consumed])
    ensures seqs <= Parse(ParserFor(src, finder, targetLength, fullUpdate, favorDecSpeed), START)
    ensures r != 0 && limit != FillOutput ==>
              && seqs == Parse(ParserFor(src, finder, targetLength, fullUpdate, favorDecSpeed), START)
              && var rest := |src| - |Expand(seqs)|;
                 r == ParseBytes(ParserFor(src, finder, targetLength, fullUpdate, favorDecSpeed), START)
                      + 1 + |LiteralExtension(rest)| + rest
    ensures r != 0 && limit != FillOutput && SeesRun(src, finder, favorDecSpeed) ==> r <= |src| / 255 + 11
  {
    hide DecodesTo, EncodeAll, ValidSequences, EndRules, FinderSound, Parse, EncodeBlock, ParseBytes, LiteralExtension,
         AfterTurns, SequencePrice, SentBytes;
    var w := ParserFor(src, finder, targetLength, fullUpdate, favorDecSpeed);
    var oend := if limit == FillOutput then dst.Length - LASTLITERALS else dst.Length;
    var overflow, op, anchor;
    overflow, op, anchor, seqs := ParseTurns(w, dst, limit, oend);
    EncodedLast(src, anchor, seqs);
    if overflow && limit == LimitedOutput {
      return 0, 0, seqs;
    }
    r, consumed := HcLastLiterals(src, dst, op, anchor, limit, seqs);
    if r == 0 {
      consumed := 0;
    }
    if r != 0 && limit != FillOutput {
      assert src[anchor..consumed] == src[anchor..];
      BlockBytes(seqs, src[anchor..]);
      ParseCosts(w, START);
      RunBytes(w);
      RunPrice(|src|);
    }
  }
}
