/**
 The LZ4 block format: a block is a list of sequences (literals, then a match that copies
 earlier output) closed by a run of last literals.

 Three descriptions of decoding are related here.
  - NaiveDecode knows nothing about buffers: it copies matches one byte at a time and has no
    end-of-block rules.
  - SafeDecode has the capacity and the end-of-block rules of the bounds-checked decoder, branch
    for branch, but no wide copies.
  - Expand gives the meaning of a list of sequences without any encoding.
 */
module Lz4Format {
  import opened Bytes

  const MINMATCH := 4
  const LASTLITERALS := 5
  const MFLIMIT := 12
  const RUN_MASK := 15
  const ML_MASK := 15
  const DISTANCE_MAX := 65535
  const MAX_INPUT_SIZE := 0x7E000000

  function CompressBound(inputSize: nat): nat {
    if inputSize > MAX_INPUT_SIZE then 0 else inputSize + inputSize / 255 + 16
  }

  // ---------------------------------------------------------------- matches

  // Appends len bytes, each one a copy of the byte that is offset places back. An offset of
  // zero, which no encoder emits, yields zeros.
  function CopyMatch(out: seq<byte>, offset: nat, len: nat): (r: seq<byte>)
    requires offset <= |out|
    ensures |r| == |out| + len
    decreases len
  {
    if len == 0 then out
    else
      var b: byte := if offset == 0 then 0 else out[|out| - offset];
      CopyMatch(out + [b], offset, len - 1)
  }

  lemma {:induction false} CopyMatchKeeps(out: seq<byte>, offset: nat, len: nat)
    requires offset <= |out|
    ensures CopyMatch(out, offset, len)[..|out|] == out
    decreases len
  {
    if len != 0 {
      var b: byte := if offset == 0 then 0 else out[|out| - offset];
      CopyMatchKeeps(out + [b], offset, len - 1);
      var r := CopyMatch(out + [b], offset, len - 1);
      assert r[..|out|] == r[..|out| + 1][..|out|] == out;
    }
  }

  lemma {:induction false} CopyMatchAt(out: seq<byte>, offset: nat, len: nat, k: nat)
    requires offset <= |out| <= k < |out| + len
    ensures CopyMatch(out, offset, len)[k] == if offset == 0 then 0 else CopyMatch(out, offset, len)[k - offset]
    decreases len
  {
    var b: byte := if offset == 0 then 0 else out[|out| - offset];
    var r := CopyMatch(out + [b], offset, len - 1);
    CopyMatchKeeps(out + [b], offset, len - 1);
    assert r[..|out| + 1] == out + [b];
    if k == |out| {
      assert r[k] == (out + [b])[k];
      assert offset != 0 ==> r[k - offset] == (out + [b])[k - offset];
    } else {
      CopyMatchAt(out + [b], offset, len - 1, k);
    }
  }

  // CopyMatch is the only continuation of out in which every new byte repeats the one offset back.
  lemma {:induction false} CopyMatchUnique(out: seq<byte>, offset: nat, len: nat, s: seq<byte>)
    requires 0 < offset <= |out|
    requires |s| == |out| + len && s[..|out|] == out
    requires forall k :: |out| <= k < |s| ==> s[k] == s[k - offset]
    ensures s == CopyMatch(out, offset, len)
    decreases len
  {
    if len == 0 {
      assert s == out;
    } else {
      var b := out[|out| - offset];
      assert s[|out|] == s[|out| - offset] == s[..|out|][|out| - offset];
      assert s[..|out| + 1] == out + [b];
      CopyMatchUnique(out + [b], offset, len - 1, s);
    }
  }

  lemma {:induction false} CopyMatchPrefix(out: seq<byte>, offset: nat, len: nat, more: nat)
    requires offset <= |out|
    requires len <= more
    ensures CopyMatch(out, offset, more)[..|out| + len] == CopyMatch(out, offset, len)
    decreases len
  {
    CopyMatchKeeps(out, offset, more);
    if len != 0 {
      var b: byte := if offset == 0 then 0 else out[|out| - offset];
      CopyMatchPrefix(out + [b], offset, len - 1, more - 1);
    }
  }

  // A match source may be moved back by any multiple of the offset, as long as it stays in
  // the period the match started from.
  lemma {:induction false} CopyMatchMultiple(out: seq<byte>, offset: nat, len: nat, k: nat, m: nat)
    requires 0 < offset <= |out| <= k < |out| + len
    requires k + offset >= |out| + m * offset
    ensures m * offset <= k
    ensures CopyMatch(out, offset, len)[k] == CopyMatch(out, offset, len)[k - m * offset]
    decreases m
  {
    if m > 1 {
      assert (m - 1) * offset == m * offset - offset;
      CopyMatchMultiple(out, offset, len, k, m - 1);
      CopyMatchAt(out, offset, len, k - (m - 1) * offset);
    } else if m == 1 {
      CopyMatchAt(out, offset, len, k);
    }
  }

  // ---------------------------------------------------------------- lengths

  // The bytes that follow a saturated length nibble: 255s, then the remainder.
  function Extension(n: nat): (r: seq<byte>)
    ensures |r| == n / 255 + 1
  {
    if n >= 255 then [255] + Extension(n - 255) else [n]
  }

  // Sum of bytes from ip up to and including the first that is not 255, and the next position.
  function ReadExtension(block: seq<byte>, ip: nat): (r: Option<(nat, nat)>)
    requires ip <= |block|
    ensures r.Some? ==> ip < r.value.1 <= |block|
    decreases |block| - ip
  {
    if ip == |block| then None
    else if block[ip] != 255 then Some((block[ip], ip + 1))
    else match ReadExtension(block, ip + 1)
      case None => None
      case Some((n, next)) => Some((255 + n, next))
  }

  ghost predicate Holds<T>(block: seq<T>, ip: nat, part: seq<T>) {
    ip + |part| <= |block| && block[ip..ip + |part|] == part
  }

  lemma {:induction false} ReadExtensionOfExtension(block: seq<byte>, ip: nat, n: nat)
    requires Holds(block, ip, Extension(n))
    ensures ReadExtension(block, ip) == Some((n, ip + |Extension(n)|))
    decreases n
  {
    assert block[ip] == block[ip..ip + |Extension(n)|][0] == Extension(n)[0];
    if n >= 255 {
      assert block[ip + 1..ip + |Extension(n)|] == Extension(n)[1..] == Extension(n - 255);
      ReadExtensionOfExtension(block, ip + 1, n - 255);
    }
  }

  // ---------------------------------------------------------------- parsing

  // A token holds the literal length in its high half and the match length in its low half.
  function LiteralNibble(token: byte): (n: nat)
    ensures n <= RUN_MASK
  {
    token / 16
  }

  function MatchNibble(token: byte): (n: nat)
    ensures n <= ML_MASK
  {
    token % 16
  }

  datatype LiteralRun = LiteralRun(start: nat, len: nat)

  function LiteralsAt(block: seq<byte>, ip: nat): (r: Option<LiteralRun>)
    requires ip < |block|
    ensures r.Some? ==> ip < r.value.start <= |block|
  {
    var n := LiteralNibble(block[ip]);
    if n != RUN_MASK then Some(LiteralRun(ip + 1, n))
    else match ReadExtension(block, ip + 1)
      case None => None
      case Some((x, next)) => Some(LiteralRun(next, RUN_MASK + x))
  }

  datatype MatchRun = MatchRun(offset: nat, len: nat, next: nat)

  // The match of the sequence whose token is at ip and whose offset field is at q.
  function MatchAt(block: seq<byte>, ip: nat, q: nat): (r: Option<MatchRun>)
    requires ip < q
    ensures r.Some? ==> q + 2 <= r.value.next <= |block|
  {
    if q + 2 > |block| then None
    else
      var offset: nat := block[q] as int + 256 * block[q + 1] as int;
      var n := MatchNibble(block[ip]);
      if n != ML_MASK then Some(MatchRun(offset, n + MINMATCH, q + 2))
      else match ReadExtension(block, q + 2)
        case None => None
        case Some((x, next)) => Some(MatchRun(offset, ML_MASK + x + MINMATCH, next))
  }

  datatype Step = Fail | Done(out: seq<byte>) | Next(ip: nat, out: seq<byte>)

  // One sequence, decoded with no notion of capacity and no end-of-block margin.
  function NaiveStep(block: seq<byte>, ip: nat, out: seq<byte>): (r: Step)
    requires ip < |block|
    ensures r.Next? ==> ip < r.ip <= |block|
  {
    match LiteralsAt(block, ip)
    case None => Fail
    case Some(lits) =>
      var q := lits.start + lits.len;
      if q > |block| then Fail
      else
        var out1 := out + block[lits.start..q];
        if q == |block| then Done(out1)
        else match MatchAt(block, ip, q)
          case None => Fail
          case Some(m) =>
            if m.offset > |out1| then Fail
            else Next(m.next, CopyMatch(out1, m.offset, m.len))
  }

  function NaiveDecode(block: seq<byte>, ip: nat, out: seq<byte>): Option<seq<byte>>
    requires ip <= |block|
    decreases |block| - ip
  {
    if ip == |block| then None
    else match NaiveStep(block, ip, out)
      case Fail => None
      case Done(o) => Some(o)
      case Next(ip', out') => NaiveDecode(block, ip', out')
  }

  // The two-stage shortcut: a short literal run, far enough from the end of both buffers that
  // sixteen literal bytes and eighteen match bytes can be copied blindly.
  predicate Shortcut(block: seq<byte>, cap: nat, ip: nat, op: nat)
    requires ip < |block|
  {
    LiteralNibble(block[ip]) != RUN_MASK && ip + 1 + 14 + 2 < |block| && op + 14 + 18 <= cap
  }

  // The match half of a sequence under the rules of the bounds-checked decoder; q is the
  // position of the offset and out ends with the sequence's literals.
  function SafeMatchStep(block: seq<byte>, cap: nat, ip: nat, q: nat, out: seq<byte>, shortcut: bool): (r: Step)
    requires ip < q && ip < |block|
    requires shortcut ==> q + 2 < |block| && |out| + 18 <= cap
    requires !shortcut ==> q + 2 + 1 + LASTLITERALS <= |block|
    ensures r.Next? ==> ip < r.ip < |block| && |r.out| <= cap
    ensures !r.Done?
  {
    match MatchAt(block, ip, q)
    case None => Fail
    case Some(m) =>
      var n := MatchNibble(block[ip]);
      var direct := shortcut && n != ML_MASK && m.offset >= 8;
      if m.offset > |out| then Fail
      else if n == ML_MASK && m.next + LASTLITERALS - 1 >= |block| then Fail
      else if !direct && |out| + m.len + LASTLITERALS > cap then Fail
      else Next(m.next, CopyMatch(out, m.offset, m.len))
  }

  // One sequence under the rules of the bounds-checked decoder writing into cap bytes.
  function SafeStep(block: seq<byte>, cap: nat, ip: nat, out: seq<byte>): (r: Step)
    requires ip < |block|
    ensures r.Next? ==> ip < r.ip < |block| && |r.out| <= cap
    ensures r.Done? ==> |r.out| <= cap
  {
    var shortcut := Shortcut(block, cap, ip, |out|);
    if LiteralNibble(block[ip]) == RUN_MASK && ip + 1 + RUN_MASK >= |block| then Fail
    else match LiteralsAt(block, ip)
      case None => Fail
      case Some(lits) =>
        var q := lits.start + lits.len;
        if !shortcut && (|out| + lits.len + MFLIMIT > cap || q + 2 + 1 + LASTLITERALS > |block|) then
          if q == |block| && |out| + lits.len <= cap then Done(out + block[lits.start..q]) else Fail
        else
          SafeMatchStep(block, cap, ip, q, out + block[lits.start..q], shortcut)
  }

  function SafeRun(block: seq<byte>, cap: nat, ip: nat, out: seq<byte>): (r: Option<seq<byte>>)
    requires ip < |block|
    ensures r.Some? ==> |r.value| <= cap
    decreases |block| - ip
  {
    match SafeStep(block, cap, ip, out)
    case Fail => None
    case Done(o) => Some(o)
    case Next(ip', out') => SafeRun(block, cap, ip', out')
  }

  // The whole block; an output buffer of size zero accepts only the encoding of the empty input.
  function SafeDecode(block: seq<byte>, cap: nat): (r: Option<seq<byte>>)
    ensures r.Some? ==> |r.value| <= cap
  {
    if cap == 0 then (if block == [0] then Some([]) else None)
    else if block == [] then None
    else SafeRun(block, cap, 0, [])
  }

  // Whatever the bounds-checked decoder accepts is what the byte-by-byte decoder reads.
  lemma {:induction false} SafeRunRefinesNaive(block: seq<byte>, cap: nat, ip: nat, out: seq<byte>)
    requires ip < |block|
    requires SafeRun(block, cap, ip, out).Some?
    ensures NaiveDecode(block, ip, out) == SafeRun(block, cap, ip, out)
    decreases |block| - ip
  {
    var s := SafeStep(block, cap, ip, out);
    assert s == NaiveStep(block, ip, out);
    if s.Next? {
      SafeRunRefinesNaive(block, cap, s.ip, s.out);
    }
  }

  lemma {:induction false} SafeDecodeRefinesNaive(block: seq<byte>, cap: nat)
    requires SafeDecode(block, cap).Some?
    ensures NaiveDecode(block, 0, []) == SafeDecode(block, cap)
  {
    if cap == 0 {
      assert NaiveStep(block, 0, []) == Done([]);
    } else {
      SafeRunRefinesNaive(block, cap, 0, []);
    }
  }

  // ---------------------------------------------------------------- encoding

  datatype Sequence = Sequence(lits: seq<byte>, offset: nat, matchLen: nat)

  function LiteralExtension(litLen: nat): seq<byte> {
    if litLen >= RUN_MASK then Extension(litLen - RUN_MASK) else []
  }

  function MatchExtension(matchCode: nat): seq<byte> {
    if matchCode >= ML_MASK then Extension(matchCode - ML_MASK) else []
  }

  // Token, literal length, literals: all of a sequence that precedes its offset.
  function LiteralPart(lits: seq<byte>, matchNibble: nat): seq<byte>
    requires matchNibble <= ML_MASK
  {
    [Min(|lits|, RUN_MASK) * 16 + matchNibble] + LiteralExtension(|lits|) + lits
  }

  function EncodeSequence(s: Sequence): seq<byte>
    requires s.matchLen >= MINMATCH
  {
    LiteralPart(s.lits, Min(s.matchLen - MINMATCH, ML_MASK)) + LE16(s.offset) + MatchExtension(s.matchLen - MINMATCH)
  }

  ghost predicate ValidSequences(seqs: seq<Sequence>)
    decreases |seqs|, 0
  {
    seqs == [] ||
    var init, last := seqs[..|seqs| - 1], seqs[|seqs| - 1];
    && ValidSequences(init)
    && MINMATCH <= last.matchLen
    && 1 <= last.offset <= DISTANCE_MAX
    && last.offset <= |Expand(init)| + |last.lits|
  }

  // The bytes a list of sequences stands for.
  ghost function Expand(seqs: seq<Sequence>): seq<byte>
    requires ValidSequences(seqs)
    decreases |seqs|, 1
  {
    if seqs == [] then []
    else
      var init, last := seqs[..|seqs| - 1], seqs[|seqs| - 1];
      CopyMatch(Expand(init) + last.lits, last.offset, last.matchLen)
  }

  ghost function EncodeAll(seqs: seq<Sequence>): seq<byte>
    requires ValidSequences(seqs)
    decreases |seqs|
  {
    if seqs == [] then []
    else EncodeAll(seqs[..|seqs| - 1]) + EncodeSequence(seqs[|seqs| - 1])
  }

  // The parsing restrictions at the end of a block of n bytes: every match starts at least
  // MFLIMIT before the end and stops at least LASTLITERALS before it.
  ghost predicate EndRules(seqs: seq<Sequence>, n: nat)
    requires ValidSequences(seqs)
    decreases |seqs|
  {
    seqs == [] ||
    var init, last := seqs[..|seqs| - 1], seqs[|seqs| - 1];
    && EndRules(init, n)
    && |Expand(init)| + |last.lits| + MFLIMIT <= n
    && |Expand(seqs)| + LASTLITERALS <= n
  }

  ghost function EncodeBlock(seqs: seq<Sequence>, last: seq<byte>): seq<byte>
    requires ValidSequences(seqs)
  {
    EncodeAll(seqs) + LiteralPart(last, 0)
  }

  // ---------------------------------------------------------------- round trip

  lemma {:induction false} PrefixValid(seqs: seq<Sequence>, n: nat, k: nat)
    requires ValidSequences(seqs) && EndRules(seqs, n)
    requires k <= |seqs|
    ensures ValidSequences(seqs[..k]) && EndRules(seqs[..k], n)
    ensures EncodeAll(seqs[..k]) <= EncodeAll(seqs)
    decreases |seqs| - k
  {
    hide CopyMatch, EncodeSequence;
    if k == |seqs| {
      assert seqs[..k] == seqs;
    } else {
      PrefixValid(seqs, n, k + 1);
      assert seqs[..k + 1][..k] == seqs[..k];
    }
  }

  lemma HoldsParts<T>(block: seq<T>, ip: nat, a: seq<T>, b: seq<T>)
    requires Holds(block, ip, a + b)
    ensures Holds(block, ip, a) && Holds(block, ip + |a|, b)
  {
    var ab := a + b;
    assert ab == block[ip..ip + |ab|];
    assert ab[..|a|] == a && ab[|a|..] == b;
  }

  lemma TokenNibbles(high: nat, low: nat)
    requires high <= RUN_MASK && low <= ML_MASK
    ensures LiteralNibble(high * 16 + low) == high && MatchNibble(high * 16 + low) == low
  {
  }

  // Where the fields of an encoded literal part lie in a block that contains it.
  lemma LiteralPartLayout(block: seq<byte>, ip: nat, lits: seq<byte>, nibble: nat)
    requires nibble <= ML_MASK
    requires Holds(block, ip, LiteralPart(lits, nibble))
    ensures ip < |block|
    ensures LiteralNibble(block[ip]) == Min(|lits|, RUN_MASK) && MatchNibble(block[ip]) == nibble
    ensures LiteralsAt(block, ip) == Some(LiteralRun(ip + 1 + |LiteralExtension(|lits|)|, |lits|))
    ensures Holds(block, ip + 1 + |LiteralExtension(|lits|)|, lits)
  {
    hide Extension, ReadExtension, LiteralNibble, MatchNibble;
    var ext := LiteralExtension(|lits|);
    var token: byte := Min(|lits|, RUN_MASK) * 16 + nibble;
    HoldsParts(block, ip, [token] + ext, lits);
    HoldsParts(block, ip, [token], ext);
    assert block[ip] == block[ip..ip + 1][0] == token;
    TokenNibbles(Min(|lits|, RUN_MASK), nibble);
    if |lits| >= RUN_MASK {
      ReadExtensionOfExtension(block, ip + 1, |lits| - RUN_MASK);
    }
  }

  lemma MatchPartLayout(block: seq<byte>, ip: nat, q: nat, offset: nat, code: nat)
    requires ip < q <= |block| && offset <= DISTANCE_MAX
    requires MatchNibble(block[ip]) == Min(code, ML_MASK)
    requires Holds(block, q, LE16(offset) + MatchExtension(code))
    ensures MatchAt(block, ip, q) == Some(MatchRun(offset, code + MINMATCH, q + 2 + |MatchExtension(code)|))
  {
    hide Extension, ReadExtension, MatchNibble;
    HoldsParts(block, q, LE16(offset), MatchExtension(code));
    assert block[q..q + 2] == LE16(offset);
    assert block[q] == block[q..q + 2][0] && block[q + 1] == block[q..q + 2][1];
    if code >= ML_MASK {
      ReadExtensionOfExtension(block, q + 2, code - ML_MASK);
    }
  }

  lemma SequenceLayout(block: seq<byte>, ip: nat, s: Sequence)
    requires s.matchLen >= MINMATCH && s.offset <= DISTANCE_MAX
    requires Holds(block, ip, EncodeSequence(s))
    ensures ip < |block|
    ensures var code := s.matchLen - MINMATCH;
            var p := ip + 1 + |LiteralExtension(|s.lits|)|;
            var q := p + |s.lits|;
            && LiteralNibble(block[ip]) == Min(|s.lits|, RUN_MASK) && MatchNibble(block[ip]) == Min(code, ML_MASK)
            && LiteralsAt(block, ip) == Some(LiteralRun(p, |s.lits|))
            && Holds(block, p, s.lits)
            && MatchAt(block, ip, q) == Some(MatchRun(s.offset, s.matchLen, ip + |EncodeSequence(s)|))
  {
    hide LiteralsAt, MatchAt, LE16, LiteralExtension, MatchExtension, LiteralNibble, MatchNibble;
    var code := s.matchLen - MINMATCH;
    var lit := LiteralPart(s.lits, Min(code, ML_MASK));
    var mat := LE16(s.offset) + MatchExtension(code);
    assert EncodeSequence(s) == lit + mat;
    HoldsParts(block, ip, lit, mat);
    LiteralPartLayout(block, ip, s.lits, Min(code, ML_MASK));
    MatchPartLayout(block, ip, ip + |lit|, s.offset, code);
  }

  // The encoding of one sequence, followed by at least six more bytes, takes the decoder one step.
  lemma {:induction false} DecodeOneSequence(block: seq<byte>, cap: nat, ip: nat, out: seq<byte>, s: Sequence)
    requires s.matchLen >= MINMATCH && 1 <= s.offset <= DISTANCE_MAX && s.offset <= |out| + |s.lits|
    requires Holds(block, ip, EncodeSequence(s))
    requires ip + |EncodeSequence(s)| + 1 + LASTLITERALS <= |block|
    requires |out| + |s.lits| + MFLIMIT <= cap
    requires |out| + |s.lits| + s.matchLen + LASTLITERALS <= cap
    ensures ip < |block|
    ensures SafeStep(block, cap, ip, out)
         == Next(ip + |EncodeSequence(s)|, CopyMatch(out + s.lits, s.offset, s.matchLen))
  {
    hide *;
    SequenceLayout(block, ip, s);
    StepOfLayout(block, cap, ip, out, s, ip + 1 + |LiteralExtension(|s.lits|)|, ip + |EncodeSequence(s)|);
  }

  lemma {:induction false} StepOfLayout(block: seq<byte>, cap: nat, ip: nat, out: seq<byte>, s: Sequence, p: nat,
                                        next: nat)
    requires ip < |block| && ip < p && 1 <= s.offset <= |out| + |s.lits|
    requires LiteralNibble(block[ip]) == Min(|s.lits|, RUN_MASK)
    requires LiteralsAt(block, ip) == Some(LiteralRun(p, |s.lits|))
    requires Holds(block, p, s.lits)
    requires MatchAt(block, ip, p + |s.lits|) == Some(MatchRun(s.offset, s.matchLen, next))
    requires next + 1 + LASTLITERALS <= |block|
    requires |out| + |s.lits| + MFLIMIT <= cap
    requires |out| + |s.lits| + s.matchLen + LASTLITERALS <= cap
    ensures SafeStep(block, cap, ip, out) == Next(next, CopyMatch(out + s.lits, s.offset, s.matchLen))
  {
    hide *;
    var q := p + |s.lits|;
    StepOfLiterals(block, cap, ip, out, LiteralRun(p, |s.lits|));
    HoldsSlice(block, p, s.lits);
    StepOfMatch(block, cap, ip, q, out + s.lits, s, Shortcut(block, cap, ip, |out|), next);
  }

  lemma HoldsSlice<T>(block: seq<T>, ip: nat, part: seq<T>)
    requires Holds(block, ip, part)
    ensures ip + |part| <= |block| && block[ip..ip + |part|] == part
  {
  }

  // A literal run that is not the last one, with room for the shortest match after it.
  lemma StepOfLiterals(block: seq<byte>, cap: nat, ip: nat, out: seq<byte>, lits: LiteralRun)
    requires ip < |block| && ip < lits.start && LiteralsAt(block, ip) == Some(lits)
    requires LiteralNibble(block[ip]) == Min(lits.len, RUN_MASK)
    requires lits.start + lits.len + 2 + 1 + LASTLITERALS <= |block|
    requires |out| + lits.len + MFLIMIT <= cap
    ensures var q := lits.start + lits.len;
            var shortcut := Shortcut(block, cap, ip, |out|);
            && (shortcut ==> |out| + lits.len + 18 <= cap)
            && SafeStep(block, cap, ip, out) == SafeMatchStep(block, cap, ip, q, out + block[lits.start..q], shortcut)
  {
    hide LiteralsAt, MatchAt, CopyMatch, LiteralNibble, MatchNibble, SafeMatchStep;
  }

  lemma {:induction false} StepOfMatch(block: seq<byte>, cap: nat, ip: nat, q: nat, out: seq<byte>, s: Sequence,
                                       shortcut: bool, next: nat)
    requires ip < q && ip < |block| && 1 <= s.offset <= |out|
    requires shortcut ==> |out| + 18 <= cap
    requires MatchAt(block, ip, q) == Some(MatchRun(s.offset, s.matchLen, next))
    requires next + 1 + LASTLITERALS <= |block|
    requires |out| + s.matchLen + LASTLITERALS <= cap
    ensures SafeMatchStep(block, cap, ip, q, out, shortcut) == Next(next, CopyMatch(out, s.offset, s.matchLen))
  {
    hide MatchAt, CopyMatch, MatchNibble;
  }

  lemma NonEmptyLiteralPart(lits: seq<byte>, nibble: nat)
    requires nibble <= ML_MASK
    ensures |LiteralPart(lits, nibble)| >= 1 + |lits|
  {
  }

  // Last literals are accepted exactly if they fit, whatever the match half of their token says.
  lemma LastAccepted(block: seq<byte>, cap: nat, ip: nat, out: seq<byte>, last: seq<byte>, nibble: nat)
    requires nibble <= ML_MASK
    requires Holds(block, ip, LiteralPart(last, nibble)) && |block| == ip + |LiteralPart(last, nibble)|
    ensures ip < |block|
    ensures SafeStep(block, cap, ip, out) == if |out| + |last| <= cap then Done(out + last) else Fail
  {
    hide LiteralsAt, SafeMatchStep, LiteralNibble, MatchNibble;
    LiteralPartLayout(block, ip, last, nibble);
  }

  lemma {:induction false} EncodedPrefix(seqs: seq<Sequence>, last: seq<byte>, n: nat, k: nat)
    requires ValidSequences(seqs) && EndRules(seqs, n) && k < |seqs|
    ensures ValidSequences(seqs[..k]) && ValidSequences(seqs[..k + 1]) && EndRules(seqs[..k + 1], n)
    ensures seqs[..k + 1][..k] == seqs[..k]
    ensures EncodeAll(seqs[..k + 1]) == EncodeAll(seqs[..k]) + EncodeSequence(seqs[k])
    ensures EncodeAll(seqs[..k + 1]) <= EncodeAll(seqs)
  {
    hide CopyMatch, EncodeSequence, Expand, EndRules, ValidSequences;
    PrefixValid(seqs, n, k);
    PrefixValid(seqs, n, k + 1);
    assert seqs[..k + 1][..k] == seqs[..k] && seqs[..k + 1][k] == seqs[k];
  }

  lemma {:induction false} SequencesFit(seqs: seq<Sequence>, n: nat)
    requires seqs != [] && ValidSequences(seqs) && EndRules(seqs, n)
    ensures |Expand(seqs)| + LASTLITERALS <= n
    ensures var last := seqs[|seqs| - 1];
            var before := |Expand(seqs[..|seqs| - 1])|;
            && before + |last.lits| + MFLIMIT <= n
            && before + |last.lits| + last.matchLen + LASTLITERALS <= n
            && last.matchLen >= MINMATCH && 1 <= last.offset <= DISTANCE_MAX && last.offset <= before + |last.lits|
    ensures Expand(seqs) == CopyMatch(Expand(seqs[..|seqs| - 1]) + seqs[|seqs| - 1].lits, seqs[|seqs| - 1].offset,
                                      seqs[|seqs| - 1].matchLen)
  {
  }

  lemma {:induction false} RoomForSequences(seqs: seq<Sequence>, n: nat)
    requires ValidSequences(seqs) && EndRules(seqs, n)
    ensures seqs != [] ==> MFLIMIT <= n
  {
  }

  lemma {:induction false} DecodeFrom(seqs: seq<Sequence>, last: seq<byte>, cap: nat, k: nat, nibble: nat)
    requires ValidSequences(seqs) && EndRules(seqs, |Expand(seqs)| + |last|)
    requires |Expand(seqs)| + |last| <= cap && nibble <= ML_MASK
    requires k <= |seqs| && ValidSequences(seqs[..k])
    ensures var block := EncodeAll(seqs) + LiteralPart(last, nibble);
            && |EncodeAll(seqs[..k])| < |block|
            && SafeRun(block, cap, |EncodeAll(seqs[..k])|, Expand(seqs[..k])) == Some(Expand(seqs) + last)
    decreases |seqs| - k
  {
    hide SafeStep, CopyMatch, EndRules, ValidSequences, Expand, EncodeAll, EncodeSequence, LiteralPart;
    var block := EncodeAll(seqs) + LiteralPart(last, nibble);
    var ip := |EncodeAll(seqs[..k])|;
    NonEmptyLiteralPart(last, nibble);
    if k == |seqs| {
      assert seqs[..k] == seqs;
      assert block[ip..] == LiteralPart(last, nibble);
      assert block[ip..|block|] == LiteralPart(last, nibble);
      LastAccepted(block, cap, ip, Expand(seqs), last, nibble);
    } else {
      var n := |Expand(seqs)| + |last|;
      EncodedPrefix(seqs, last, n, k);
      SequencesFit(seqs, n);
      SequencesFit(seqs[..k + 1], n);
      assert seqs[..k + 1][k] == seqs[k];
      assert EncodeAll(seqs[..k + 1]) <= block;
      HoldsParts(block, 0, EncodeAll(seqs[..k]), EncodeSequence(seqs[k]));
      DecodeOneSequence(block, cap, ip, Expand(seqs[..k]), seqs[k]);
      DecodeFrom(seqs, last, cap, k + 1, nibble);
    }
  }

  // Decoding undoes encoding, for every parse that obeys the end-of-block rules and every
  // output buffer large enough for the result.
  lemma {:induction false} DecodeEncode(seqs: seq<Sequence>, last: seq<byte>, cap: nat)
    requires ValidSequences(seqs) && EndRules(seqs, |Expand(seqs)| + |last|)
    requires |Expand(seqs)| + |last| <= cap
    ensures SafeDecode(EncodeBlock(seqs, last), cap) == Some(Expand(seqs) + last)
  {
    hide SafeRun, CopyMatch, EndRules, EncodeSequence;
    AnyLastToken(seqs, last, cap, 0);
  }

  // The match half of the last token is not read, unless the output has no room at all.
  lemma {:induction false} AnyLastToken(seqs: seq<Sequence>, last: seq<byte>, cap: nat, nibble: nat)
    requires ValidSequences(seqs) && EndRules(seqs, |Expand(seqs)| + |last|)
    requires |Expand(seqs)| + |last| <= cap && nibble <= ML_MASK
    ensures SafeDecode(EncodeAll(seqs) + LiteralPart(last, nibble), cap)
         == if cap > 0 || nibble == 0 then Some(Expand(seqs) + last) else None
  {
    hide SafeRun, CopyMatch, EndRules, EncodeSequence;
    assert seqs[..0] == [];
    if cap == 0 {
      RoomForSequences(seqs, |Expand(seqs)| + |last|);
      var block := EncodeAll(seqs) + LiteralPart(last, nibble);
      assert block == LiteralPart(last, nibble) && block[0] == nibble && |block| == 1;
      assert seqs == [] && Expand(seqs) + last == [];
      assert block == [0] <==> nibble == 0;
    } else {
      DecodeFrom(seqs, last, cap, 0, nibble);
    }
  }

  // ---------------------------------------------------------------- capacity

  // A larger output buffer accepts at least as much, and never changes what is decoded.
  lemma {:induction false} RunWithMoreCapacity(block: seq<byte>, cap: nat, more: nat, ip: nat, out: seq<byte>)
    requires ip < |block| && cap <= more && SafeRun(block, cap, ip, out).Some?
    ensures SafeRun(block, more, ip, out) == SafeRun(block, cap, ip, out)
    decreases |block| - ip
  {
    StepWithMoreCapacity(block, cap, more, ip, out);
    var s := SafeStep(block, cap, ip, out);
    if s.Next? {
      RunWithMoreCapacity(block, cap, more, s.ip, s.out);
    }
  }

  lemma StepWithMoreCapacity(block: seq<byte>, cap: nat, more: nat, ip: nat, out: seq<byte>)
    requires ip < |block| && cap <= more && SafeStep(block, cap, ip, out) != Fail
    ensures SafeStep(block, more, ip, out) == SafeStep(block, cap, ip, out)
  {
    hide CopyMatch, ReadExtension, LiteralNibble, MatchNibble, MatchAt;
  }

  lemma MoreCapacity(block: seq<byte>, cap: nat, more: nat)
    requires cap <= more && SafeDecode(block, cap).Some?
    ensures SafeDecode(block, more) == SafeDecode(block, cap)
  {
    hide CopyMatch, ReadExtension;
    if cap == 0 {
      assert LiteralsAt([0], 0) == Some(LiteralRun(1, 0));
    } else {
      RunWithMoreCapacity(block, cap, more, 0, []);
    }
  }

  // ---------------------------------------------------------------- what the shortcut lets through

  // One sequence under the general rules alone.
  function GeneralStep(block: seq<byte>, cap: nat, ip: nat, out: seq<byte>): Step
    requires ip < |block|
  {
    if LiteralNibble(block[ip]) == RUN_MASK && ip + 1 + RUN_MASK >= |block| then Fail
    else match LiteralsAt(block, ip)
      case None => Fail
      case Some(lits) =>
        var q := lits.start + lits.len;
        if |out| + lits.len + MFLIMIT > cap || q + 2 + 1 + LASTLITERALS > |block| then
          if q == |block| && |out| + lits.len <= cap then Done(out + block[lits.start..q]) else Fail
        else
          SafeMatchStep(block, cap, ip, q, out + block[lits.start..q], false)
  }

  // Where the shortcut's literals end.
  function ShortOffset(block: seq<byte>, ip: nat): nat
    requires ip < |block|
  {
    ip + 1 + LiteralNibble(block[ip])
  }

  /**
   The shortcut lets through exactly two kinds of sequence that the general rules reject: those whose
   offset lies within the last eight bytes of the block, and those with a short match at an offset of
   eight or more that comes within five bytes of the end of the output.
   */
  lemma ShortcutIsLaxer(block: seq<byte>, cap: nat, ip: nat, out: seq<byte>)
    requires ip < |block| && SafeStep(block, cap, ip, out) != Fail
    ensures GeneralStep(block, cap, ip, out) != Fail ==>
            GeneralStep(block, cap, ip, out) == SafeStep(block, cap, ip, out)
    ensures GeneralStep(block, cap, ip, out) == Fail
       <==> && Shortcut(block, cap, ip, |out|)
            && var q := ShortOffset(block, ip);
               && q + 2 <= |block|
               && (|| |block| < q + 2 + 1 + LASTLITERALS
                   || (&& MatchNibble(block[ip]) != ML_MASK
                       && block[q] as int + 256 * block[q + 1] as int >= 8
                       && |out| + LiteralNibble(block[ip]) + MatchNibble(block[ip]) + MINMATCH + LASTLITERALS > cap))
  {
    hide CopyMatch, ReadExtension, LiteralNibble, MatchNibble;
  }

  // A block of each kind: fourteen literals and a match right before the end, of eighteen bytes at
  // offset 8, and of four bytes at offset 1.
  lemma {:induction false} LaxBlocks(lits: seq<byte>)
    requires |lits| == 14
    ensures SafeDecode([0xEE] + lits + [8, 0] + [0], 32) == Some(CopyMatch(lits, 8, 18))
    ensures GeneralStep([0xEE] + lits + [8, 0] + [0], 32, 0, []) == Fail
    ensures SafeDecode([0xE0] + lits + [1, 0] + [0], 32) == Some(CopyMatch(lits, 1, 4))
    ensures GeneralStep([0xE0] + lits + [1, 0] + [0], 32, 0, []) == Fail
  {
    hide CopyMatch;
    LaxBlock(lits, 0xEE, 8, 18);
    LaxBlock(lits, 0xE0, 1, 4);
  }

  // An offset of zero is accepted, and stands for zero bytes.
  lemma ZeroOffsetBlock(lits: seq<byte>)
    requires |lits| == 14
    ensures SafeDecode([0xE0] + lits + [0, 0] + [0], 32) == Some(lits + [0, 0, 0, 0])
  {
    LaxBlock(lits, 0xE0, 0, 4);
    CopyMatchKeeps(lits, 0, 4);
    var out := CopyMatch(lits, 0, 4);
    forall k | 14 <= k < 18 ensures out[k] == 0 {
      CopyMatchAt(lits, 0, 4, k);
    }
    assert out == out[..14] + [0, 0, 0, 0];
  }

  lemma {:induction false} LaxBlock(lits: seq<byte>, token: byte, offset: byte, len: nat)
    requires |lits| == 14 && LiteralNibble(token) == 14 && MatchNibble(token) + MINMATCH == len <= 18
    requires offset <= 14 && (offset < 8 ==> len <= 13)
    ensures var block := [token] + lits + [offset, 0] + [0];
            && SafeDecode(block, 32) == Some(CopyMatch(lits, offset, len))
            && GeneralStep(block, 32, 0, []) == Fail
  {
    hide CopyMatch, ReadExtension;
    var block := [token] + lits + [offset, 0] + [0];
    var out := CopyMatch(lits, offset, len);
    assert block[0] == token && block[15] == offset && block[16] == 0 && block[17] == 0;
    assert [] + block[1..15] == lits;
    assert SafeStep(block, 32, 0, []) == Next(17, out);
    assert block[18..18] == [];
    assert LiteralNibble(block[17]) == 0;
    assert out + block[18..18] == out;
    assert SafeStep(block, 32, 17, out) == Done(out);
    assert SafeRun(block, 32, 17, out) == Some(out);
    assert SafeRun(block, 32, 0, []) == Some(out);
  }

  // ---------------------------------------------------------------- exactly what is accepted

  // Where the literals and the offset of an encoded sequence at ip lie.
  function LiteralsStart(ip: nat, s: Sequence): nat {
    ip + 1 + |LiteralExtension(|s.lits|)|
  }

  function OffsetAt(ip: nat, s: Sequence): nat {
    LiteralsStart(ip, s) + |s.lits|
  }

  // A sequence with fifteen literals or more, which never takes the shortcut, is decoded exactly if its
  // match starts twelve bytes and ends five bytes before the end of the output, and enough of the block
  // follows it.
  lemma {:induction false} StepAccepted(block: seq<byte>, cap: nat, ip: nat, out: seq<byte>, s: Sequence)
    requires |s.lits| >= RUN_MASK && MINMATCH <= s.matchLen && s.offset <= DISTANCE_MAX
    requires s.offset <= |out| + |s.lits| && Holds(block, ip, EncodeSequence(s))
    ensures ip < |block|
    ensures var next := ip + |EncodeSequence(s)|;
            SafeStep(block, cap, ip, out) ==
            if |out| + |s.lits| + 12 <= cap && |out| + |s.lits| + s.matchLen + 5 <= cap
               && OffsetAt(ip, s) + 8 <= |block| && (s.matchLen >= 19 ==> next + 5 <= |block|)
            then Next(next, CopyMatch(out + s.lits, s.offset, s.matchLen))
            else Fail
  {
    hide LiteralsAt, MatchAt, CopyMatch, LiteralNibble, MatchNibble, LiteralExtension, EncodeSequence, Holds, SafeStep;
    SequenceLayout(block, ip, s);
    LongLiterals(s);
    PartSizes(s, []);
    HoldsSlice(block, ip, EncodeSequence(s));
    HoldsSlice(block, LiteralsStart(ip, s), s.lits);
    StepOfParts(block, cap, ip, out, LiteralRun(LiteralsStart(ip, s), |s.lits|),
                MatchRun(s.offset, s.matchLen, ip + |EncodeSequence(s)|));
  }

  lemma LongLiterals(s: Sequence)
    requires |s.lits| >= RUN_MASK && s.matchLen >= MINMATCH
    ensures Min(|s.lits|, RUN_MASK) == RUN_MASK && |LiteralExtension(|s.lits|)| >= 1
    ensures Min(s.matchLen - MINMATCH, ML_MASK) == ML_MASK <==> s.matchLen >= 19
  {
  }

  // A sequence outside the shortcut, by the places of its parts.
  lemma {:induction false} StepOfParts(block: seq<byte>, cap: nat, ip: nat, out: seq<byte>, lits: LiteralRun,
                                       m: MatchRun)
    requires ip < |block| && LiteralNibble(block[ip]) == RUN_MASK && ip + 1 < lits.start && lits.len >= RUN_MASK
    requires LiteralsAt(block, ip) == Some(lits) && lits.start + lits.len + 2 <= |block|
    requires MatchAt(block, ip, lits.start + lits.len) == Some(m)
    requires m.offset <= |out| + lits.len && (MatchNibble(block[ip]) == ML_MASK <==> m.len >= 19)
    ensures var q := lits.start + lits.len;
            SafeStep(block, cap, ip, out) ==
            if |out| + lits.len + 12 <= cap && |out| + lits.len + m.len + 5 <= cap && q + 8 <= |block|
               && (m.len >= 19 ==> m.next + 5 <= |block|)
            then Next(m.next, CopyMatch(out + block[lits.start..q], m.offset, m.len))
            else Fail
  {
    hide LiteralsAt, MatchAt, CopyMatch, LiteralNibble, MatchNibble;
  }

  /**
   A block of one such sequence and last literals is accepted if and only if the output holds what it
   stands for, with the margins of the format: a match starts at least twelve bytes and ends at least five
   bytes before the end of the output, and five last literals follow it; four are enough after a match of
   nineteen bytes or more, whose length takes bytes of its own.
   */
  lemma {:induction false} OneSequenceAccepted(s: Sequence, last: seq<byte>, cap: nat)
    requires |s.lits| >= RUN_MASK && MINMATCH <= s.matchLen && 1 <= s.offset <= 65535 && s.offset <= |s.lits|
    ensures ValidSequences([s])
    ensures var n := |s.lits| + s.matchLen;
            SafeDecode(EncodeBlock([s], last), cap).Some?
            <==> |s.lits| + 12 <= cap && n + 5 <= cap && n + |last| <= cap
                 && |last| >= if s.matchLen >= 19 then 4 else 5
  {
    hide SafeStep, EncodeSequence, LiteralPart, CopyMatch;
    assert [s][..0] == [] && [] + s.lits == s.lits;
    assert ValidSequences([]) && Expand([]) == [] && EncodeAll([]) == [];
    assert EncodeAll([s]) == [] + EncodeSequence(s) == EncodeSequence(s);
    var block := EncodeBlock([s], last);
    var next := |EncodeSequence(s)|;
    HoldsParts(block, 0, EncodeSequence(s), LiteralPart(last, 0));
    StepAccepted(block, cap, 0, [], s);
    PartSizes(s, last);
    var out := CopyMatch(s.lits, s.offset, s.matchLen);
    LastAccepted(block, cap, next, out, last, 0);
    if cap > 0 && SafeStep(block, cap, 0, []).Next? {
      assert SafeRun(block, cap, 0, []) == SafeRun(block, cap, next, out);
    }
  }

  lemma PartSizes(s: Sequence, last: seq<byte>)
    requires MINMATCH <= s.matchLen
    ensures |EncodeSequence(s)| == OffsetAt(0, s) + 2 + |MatchExtension(s.matchLen - MINMATCH)|
    ensures s.matchLen < 19 ==> |MatchExtension(s.matchLen - MINMATCH)| == 0
    ensures s.matchLen >= 19 ==> |MatchExtension(s.matchLen - MINMATCH)| >= 1
    ensures |last| < RUN_MASK ==> |LiteralPart(last, 0)| == 1 + |last|
    ensures |LiteralPart(last, 0)| >= 1 + |last|
  {
  }
}
