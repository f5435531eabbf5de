/**
 The bounds-checked block decoder (LZ4_decompress_safe), with its wide copies, working in place
 on the output buffer. Every copy helper demands that it stays inside both buffers and that the
 ranges of each memcpy are disjoint, so verification of the callers is memory safety.
 */
module Lz4Decoder {
  import opened Bytes
  import opened Lz4Format

  const WILDCOPYLENGTH := 8
  const MATCH_SAFEGUARD_DISTANCE := 2 * WILDCOPYLENGTH - MINMATCH

  // ---------------------------------------------------------------- memory primitives

  method MemCpyIn(dst: array<byte>, d: nat, src: seq<byte>, s: nat, n: nat)
    requires d + n <= dst.Length && s + n <= |src|
    modifies dst
    ensures dst[..d] == old(dst[..d]) && dst[d + n..] == old(dst[d + n..])
    ensures dst[d..d + n] == src[s..s + n]
  {
    forall i | 0 <= i < n {
      dst[d + i] := src[s + i];
    }
  }

  method MemCpy(dst: array<byte>, d: nat, s: nat, n: nat)
    requires d + n <= dst.Length && s + n <= d
    modifies dst
    ensures forall k :: 0 <= k < d || d + n <= k < dst.Length ==> dst[k] == old(dst[k])
    ensures forall k :: d <= k < d + n ==> dst[k] == dst[k - (d - s)]
  {
    forall i | 0 <= i < n {
      dst[d + i] := dst[s + i];
    }
  }

  method Write32(dst: array<byte>, d: nat, b: byte)
    requires d + 4 <= dst.Length
    modifies dst
    ensures forall k :: 0 <= k < d || d + 4 <= k < dst.Length ==> dst[k] == old(dst[k])
    ensures forall k :: d <= k < d + 4 ==> dst[k] == b
  {
    dst[d], dst[d + 1], dst[d + 2], dst[d + 3] := b, b, b, b;
  }

  // Where a wide copy from d to e stops: after whole groups of eight, and at least one. That is at
  // most seven bytes past e, unless there was nothing to copy.
  function WildEnd(d: nat, e: nat): (end: nat)
    ensures end == d + 8 || end < e + 8
    ensures e <= end && d < end && (end - d) % 8 == 0
  {
    if e <= d then d + 8 else d + (e - d + 7) / 8 * 8
  }

  // Eight bytes at a time: all that is written, overshoot included, is input, and nothing else changes.
  method WildCopy8In(dst: array<byte>, d: nat, src: seq<byte>, s: nat, e: nat)
    requires d <= e && e + 7 <= dst.Length && s + (e - d) + 7 <= |src|
    requires d + 8 <= dst.Length && s + 8 <= |src|
    modifies dst
    ensures dst[..d] == old(dst[..d]) && dst[WildEnd(d, e)..] == old(dst[WildEnd(d, e)..])
    ensures dst[d..WildEnd(d, e)] == src[s..s + (WildEnd(d, e) - d)]
    ensures dst[d..e] == src[s..s + (e - d)]
  {
    hide WildEnd;
    var d', s' := d, s;
    ghost var groups := 0;
    while true
      invariant d' == d + 8 * groups && s' == s + 8 * groups
      invariant d' == d || d' < e
      invariant forall k :: 0 <= k < d || d' <= k < dst.Length ==> dst[k] == old(dst[k])
      invariant forall k :: d <= k < d' ==> dst[k] == src[k - d + s]
      decreases e - d'
    {
      ghost var before := dst[..];
      MemCpyIn(dst, d', src, s', 8);
      forall k | 0 <= k < dst.Length
        ensures dst[k] == if d' <= k < d' + 8 then src[k - d + s] else before[k]
      {
        SliceAt(dst[..], before, src, d', s', k);
      }
      d', s', groups := d' + 8, s' + 8, groups + 1;
      if d' >= e {
        break;
      }
    }
    GroupsEnd(d, e, groups);
    CopiedSlices(dst[..], old(dst[..]), src, d, s, d', e);
  }

  lemma CopiedSlices(after: seq<byte>, before: seq<byte>, src: seq<byte>, d: nat, s: nat, end: nat, e: nat)
    requires |after| == |before| && d <= e <= end <= |after| && s + (end - d) <= |src|
    requires forall k :: 0 <= k < d || end <= k < |after| ==> after[k] == before[k]
    requires forall k :: d <= k < end ==> after[k] == src[k - d + s]
    ensures after[..d] == before[..d] && after[end..] == before[end..]
    ensures after[d..end] == src[s..s + (end - d)] && after[d..e] == src[s..s + (e - d)]
  {
  }

  lemma SliceAt(after: seq<byte>, before: seq<byte>, src: seq<byte>, d: nat, s: nat, k: nat)
    requires |after| == |before| && d + 8 <= |after| && s + 8 <= |src| && k < |after|
    requires after[..d] == before[..d] && after[d + 8..] == before[d + 8..] && after[d..d + 8] == src[s..s + 8]
    ensures after[k] == if d <= k < d + 8 then src[k - d + s] else before[k]
  {
    if k < d {
      assert after[..d][k] == before[..d][k];
    } else if k < d + 8 {
      assert after[d..d + 8][k - d] == src[s..s + 8][k - d];
    } else {
      assert after[d + 8..][k - (d + 8)] == before[d + 8..][k - (d + 8)];
    }
  }

  lemma GroupsEnd(d: nat, e: nat, groups: nat)
    requires groups >= 1 && d + 8 * groups >= e && (groups == 1 || d + 8 * (groups - 1) < e)
    ensures d + 8 * groups == WildEnd(d, e)
  {
  }

  ghost predicate Agrees(dst: array<byte>, target: seq<byte>, n: int)
    requires dst.Length == |target| && n <= |target|
    reads dst
  {
    forall k :: 0 <= k < n ==> dst[k] == target[k]
  }

  // The bytes of target from position from on repeat those a given distance back.
  ghost predicate Repeats(target: seq<byte>, from: nat, distance: nat) {
    distance <= from && forall k :: from <= k < |target| ==> target[k] == target[k - distance]
  }

  // A wide copy inside the output: it extends any agreement with a target that repeats at the
  // copy's distance, and its overshoot agrees as well.
  method WildCopy8(dst: array<byte>, d: nat, s: nat, e: nat, ghost target: seq<byte>)
    requires s + 8 <= d <= dst.Length == |target|
    requires d + 8 <= dst.Length && e + 7 <= dst.Length
    requires Repeats(target, d, d - s) && Agrees(dst, target, d)
    modifies dst
    ensures Agrees(dst, target, d) && Agrees(dst, target, e)
    ensures Agrees(dst, target, WildEnd(d, e))
    ensures forall k :: WildEnd(d, e) <= k < dst.Length ==> dst[k] == old(dst[k])
  {
    var d', s' := d, s;
    while true
      invariant d <= d' && d' - s' == d - s && (d' - d) % 8 == 0
      invariant d' == d || d' < e
      invariant Agrees(dst, target, d')
      invariant forall k :: d' <= k < dst.Length ==> dst[k] == old(dst[k])
      decreases e - d'
    {
      MemCpy(dst, d', s', 8);
      forall k | d' <= k < d' + 8 ensures dst[k] == target[k] {
        assert target[k] == target[k - (d - s)];
        assert dst[k] == dst[k - (d - s)];
      }
      d', s' := d' + 8, s' + 8;
      if d' >= e {
        break;
      }
    }
    assert d' == WildEnd(d, e);
  }

  // ---------------------------------------------------------------- match copy

  const INC32TABLE: seq<int> := [0, 1, 2, 1, 0, 4, 4, 4]
  const DEC64TABLE: seq<int> := [0, 0, 0, -1, -4, 1, 2, 3]

  // How far behind the write position the match source is once eight bytes have been copied.
  function Distance(offset: nat): nat {
    if offset < 8 then offset + 8 - INC32TABLE[offset] + DEC64TABLE[offset] else offset
  }

  // The tables move the source of a short offset to a distance of at least eight that is a
  // multiple of the offset, both for the second group of four bytes and from then on.
  lemma TablesKeepPhase(offset: nat)
    requires offset < 8
    ensures 8 <= Distance(offset) <= offset + 8 && 4 <= offset + 4 - INC32TABLE[offset] <= 8
    ensures offset > 0 ==> Distance(offset) % offset == 0 && (offset + 4 - INC32TABLE[offset]) % offset == 0
  {
  }

  lemma {:induction false} TargetRepeats(out: seq<byte>, offset: nat, len: nat, multiple: nat, from: nat)
    requires offset <= |out|
    requires offset > 0 ==> multiple % offset == 0
    requires |out| + multiple <= from + offset
    requires offset == 0 ==> |out| + multiple <= from
    ensures Repeats(CopyMatch(out, offset, len), from, multiple)
  {
    var t := CopyMatch(out, offset, len);
    forall k | from <= k < |t| ensures t[k] == t[k - multiple] {
      if offset == 0 {
        CopyMatchAt(out, offset, len, k);
        CopyMatchAt(out, offset, len, k - multiple);
      } else if multiple == 0 {
      } else {
        var m := multiple / offset;
        assert multiple == m * offset;
        CopyMatchMultiple(out, offset, len, k, m);
      }
    }
  }

  // Near the end of the output: wide copies while they fit, then single bytes.
  method CopyNearEnd(dst: array<byte>, op: nat, m: nat, cpy: nat, ghost target: seq<byte>)
    requires m + 8 <= op && op + 4 <= dst.Length == |target| && cpy + LASTLITERALS <= dst.Length
    requires Repeats(target, op, op - m) && Agrees(dst, target, op)
    modifies dst
    ensures Agrees(dst, target, cpy)
  {
    var d, m' := op, m;
    var oCopyLimit := dst.Length - (WILDCOPYLENGTH - 1);
    if d < oCopyLimit {
      WildCopy8(dst, d, m', oCopyLimit, target);
      m' := m' + (oCopyLimit - d);
      d := oCopyLimit;
    }
    while d < cpy
      invariant d >= op && d - m' == op - m
      invariant d <= dst.Length && Agrees(dst, target, d)
    {
      dst[d] := dst[m'];
      assert target[d] == target[d - (op - m)];
      d, m' := d + 1, m' + 1;
    }
  }

  // LZ4_decompress_generic from the write of four zeros at op to the end of the match: false when
  // the match would run into the last five bytes of the output.
  method CopyMatchWide(dst: array<byte>, op: nat, offset: nat, length: nat) returns (ok: bool)
    requires op + MFLIMIT <= dst.Length && offset <= op && MINMATCH <= length
    modifies dst
    ensures ok <==> op + length + LASTLITERALS <= dst.Length
    ensures ok ==> dst[..op + length] == CopyMatch(old(dst[..op]), offset, length)
  {
    hide CopyMatch, Repeats;
    var oend := dst.Length;
    ghost var out := dst[..op];
    ghost var target := CopyMatch(out, offset, oend - op);
    Write32(dst, op, 0);
    assert dst[..op] == out;
    var cpy := op + length;
    var d := op + 8;
    var m;
    if offset < 8 {
      m := CopyFirstEight(dst, op, offset, target);
    } else {
      TargetRepeats(out, offset, oend - op, offset, op);
      assert Agrees(dst, target, op) by {
        CopyMatchKeeps(out, offset, dst.Length - op);
        assert target[..op] == out;
      }
      MemCpyTarget(dst, op, op - offset, 8, target);
      m := op - offset + 8;
    }
    DistanceRepeats(out, offset, oend - op, d);
    if cpy > oend - MATCH_SAFEGUARD_DISTANCE {
      if cpy > oend - LASTLITERALS {
        ok := false;
        return;
      }
      CopyNearEnd(dst, d, m, cpy, target);
    } else {
      MemCpyTarget(dst, d, m, 8, target);
      if length > 16 {
        DistanceRepeats(out, offset, oend - op, d + 8);
        WildCopy8(dst, d + 8, m + 8, cpy, target);
      }
    }
    ok := true;
    CopyMatchPrefix(out, offset, length, oend - op);
    assert dst[..cpy] == target[..cpy];
  }

  method MemCpyTarget(dst: array<byte>, d: nat, s: nat, n: nat, ghost target: seq<byte>)
    requires d + n <= dst.Length == |target| && s + n <= d
    requires Repeats(target, d, d - s) && Agrees(dst, target, d)
    modifies dst
    ensures Agrees(dst, target, d + n)
    ensures forall k :: d + n <= k < dst.Length ==> dst[k] == old(dst[k])
  {
    MemCpy(dst, d, s, n);
    forall k | d <= k < d + n ensures dst[k] == target[k] {
      assert target[k] == target[k - (d - s)];
      assert dst[k] == dst[k - (d - s)];
    }
  }

  lemma {:induction false} DistanceRepeats(out: seq<byte>, offset: nat, len: nat, from: nat)
    requires offset <= |out| && from >= |out| + 8
    ensures Distance(offset) >= 8 && Distance(offset) <= offset + 8
    ensures Repeats(CopyMatch(out, offset, len), from, Distance(offset))
  {
    if offset < 8 {
      TablesKeepPhase(offset);
    } else {
      assert offset % offset == 0;
    }
    TargetRepeats(out, offset, len, Distance(offset), from);
  }

  // The first eight bytes of a match at a short offset: four single bytes, then a group of four.
  method CopyFirstEight(dst: array<byte>, op: nat, offset: nat, ghost target: seq<byte>) returns (match_: nat)
    requires op + MFLIMIT <= dst.Length && offset <= op && offset < 8
    requires forall k :: op <= k < op + 4 ==> dst[k] == 0
    requires target == CopyMatch(dst[..op], offset, dst.Length - op)
    modifies dst
    ensures Agrees(dst, target, op + 8)
    ensures match_ + Distance(offset) == op + 8
  {
    hide CopyMatch;
    TablesKeepPhase(offset);
    ghost var out := dst[..op];
    assert Agrees(dst, target, op) by {
      CopyMatchKeeps(out, offset, dst.Length - op);
      assert target[..op] == out;
    }
    var m := op - offset;
    var j := 0;
    while j < 4
      invariant 0 <= j <= 4
      invariant Agrees(dst, target, op + j)
      invariant forall k :: op + j <= k < op + 4 ==> dst[k] == 0
    {
      dst[op + j] := dst[m + j];
      CopyMatchAt(out, offset, dst.Length - op, op + j);
      j := j + 1;
    }
    m := m + INC32TABLE[offset];
    TargetRepeats(out, offset, dst.Length - op, op + 4 - m, op + 4);
    MemCpyTarget(dst, op + 4, m, 4, target);
    match_ := m - DEC64TABLE[offset];
  }

  // ---------------------------------------------------------------- lengths

  datatype VariableLengthError = Ok | InitialError | LoopError

  function AddLength(acc: nat, r: Option<(nat, nat)>): Option<(nat, nat)> {
    match r case None => None case Some((n, next)) => Some((acc + n, next))
  }

  // Where reading a length stops: after the first byte that is not 255, or on reaching a limit.
  function LengthEnd(src: seq<byte>, ip: nat, lencheck: int): (end: nat)
    requires ip < |src|
    ensures ip < end <= |src|
    decreases |src| - ip
  {
    if ip + 1 >= lencheck || ip + 1 == |src| || src[ip] != 255 then ip + 1 else LengthEnd(src, ip + 1, lencheck)
  }

  // Reads length bytes until one is not 255, or until ip reaches lencheck. A loop error leaves
  // the length that was read so far.
  method ReadVariableLength(src: seq<byte>, ip0: nat, lencheck: int, initialCheck: bool)
    returns (ip: nat, length: nat, error: VariableLengthError)
    requires ip0 < |src| || (initialCheck && ip0 <= |src|)
    requires lencheck <= |src|
    ensures ip0 <= ip <= |src|
    ensures error == InitialError <==> initialCheck && ip0 >= lencheck
    ensures if error == InitialError then ip == ip0 else ip0 < |src| && ip == LengthEnd(src, ip0, lencheck)
    ensures error == Ok ==> ip < lencheck && ReadExtension(src, ip0) == Some((length, ip))
    ensures error == LoopError ==>
              && ip >= lencheck
              && (match ReadExtension(src, ip0)
                  case None => length >= 255
                  case Some((n, next)) => next >= ip && ((n == length && next == ip) || (length >= 255 && n >= length)))
  {
    ip, length, error := ip0, 0, Ok;
    if initialCheck && ip >= lencheck {
      error := InitialError;
      return;
    }
    while true
      invariant ip0 <= ip < |src|
      invariant ReadExtension(src, ip0) == AddLength(length, ReadExtension(src, ip))
      invariant LengthEnd(src, ip0, lencheck) == LengthEnd(src, ip, lencheck)
      decreases |src| - ip
    {
      var s := src[ip];
      ip, length := ip + 1, length + s;
      if ip >= lencheck {
        error := LoopError;
        return;
      }
      if s != 255 {
        break;
      }
    }
  }

  // ---------------------------------------------------------------- where an error is noticed

  // How far the input has been read when the match of the sequence at start is rejected; q is the
  // position of its offset.
  function MatchStop(src: seq<byte>, start: nat, q: nat, op: nat): (p: nat)
    requires start < |src| && q + 2 < |src|
    ensures q + 2 <= p <= |src|
  {
    if src[q] as int + 256 * src[q + 1] as int <= op && MatchNibble(src[start]) == ML_MASK then
      LengthEnd(src, q + 2, |src| - LASTLITERALS + 1)
    else q + 2
  }

  // How far when its literals are.
  function LiteralStop(src: seq<byte>, start: nat): (p: nat)
    requires start < |src|
    ensures start < p <= |src|
  {
    if LiteralNibble(src[start]) == RUN_MASK && start + 1 + RUN_MASK < |src| then
      LengthEnd(src, start + 1, |src| - RUN_MASK)
    else start + 1
  }

  // The literals of the sequence at start are no reason to reject it, nor are they the last ones.
  predicate LiteralsPass(src: seq<byte>, cap: nat, start: nat, op: nat)
    requires start < |src|
  {
    Shortcut(src, cap, start, op) || (
      && !(LiteralNibble(src[start]) == RUN_MASK && start + 1 + RUN_MASK >= |src|)
      && var lits := LiteralsAt(src, start);
         lits.Some? && op + lits.value.len + MFLIMIT <= cap
         && lits.value.start + lits.value.len + 2 + 1 + LASTLITERALS <= |src|)
  }

  lemma ShortLiterals(src: seq<byte>, cap: nat, start: nat, op: nat)
    requires start < |src| && LiteralsPass(src, cap, start, op)
    ensures LiteralsAt(src, start).Some?
    ensures LiteralsAt(src, start).value.start + LiteralsAt(src, start).value.len + 2 < |src|
  {
    hide ReadExtension;
  }

  function SequenceStop(src: seq<byte>, cap: nat, start: nat, op: nat): (p: nat)
    requires start < |src|
    ensures start < p <= |src|
  {
    if LiteralsPass(src, cap, start, op) then
      ShortLiterals(src, cap, start, op);
      var lits := LiteralsAt(src, start).value;
      MatchStop(src, start, lits.start + lits.len, op + lits.len)
    else LiteralStop(src, start)
  }

  lemma StopOf(src: seq<byte>, cap: nat, start: nat, op: nat)
    requires start < |src|
    ensures !LiteralsPass(src, cap, start, op) ==> SequenceStop(src, cap, start, op) == LiteralStop(src, start)
    ensures LiteralsPass(src, cap, start, op) ==>
              && LiteralsAt(src, start).Some?
              && var lits := LiteralsAt(src, start).value;
                 && lits.start + lits.len + 2 < |src|
                 && SequenceStop(src, cap, start, op) == MatchStop(src, start, lits.start + lits.len, op + lits.len)
  {
    hide MatchStop, LiteralStop, LiteralsAt, LiteralNibble;
    if LiteralsPass(src, cap, start, op) {
      ShortLiterals(src, cap, start, op);
    }
  }

  lemma ShortcutStop(src: seq<byte>, cap: nat, start: nat, op: nat)
    requires start < |src| && Shortcut(src, cap, start, op)
    ensures var length := LiteralNibble(src[start]);
            && start + 1 + length + 2 < |src|
            && SequenceStop(src, cap, start, op) == MatchStop(src, start, start + 1 + length, op + length)
  {
    hide MatchStop, LiteralStop, ReadExtension;
    StopOf(src, cap, start, op);
  }

  // How far a rejected block has been read.
  function StoppedAt(src: seq<byte>, cap: nat, ip: nat, out: seq<byte>): (p: nat)
    requires ip < |src|
    ensures p <= |src|
    decreases |src| - ip
  {
    match SafeStep(src, cap, ip, out)
    case Fail => SequenceStop(src, cap, ip, |out|)
    case Done(_) => 0
    case Next(ip', out') => StoppedAt(src, cap, ip', out')
  }

  // ---------------------------------------------------------------- main loop

  datatype Outcome = Error | EndOfBlock | Continue

  // What the decoder's registers must say about the step it has just taken.
  ghost predicate Took(step: Step, outcome: Outcome, ip: nat, out: seq<byte>) {
    match outcome
    case Error => step == Fail
    case EndOfBlock => step == Done(out)
    case Continue => step == Next(ip, out)
  }

  // The shortcut's match: eighteen bytes at an offset of at least eight.
  method CopyShort(dst: array<byte>, op: nat, offset: nat, length: nat)
    requires 8 <= offset <= op && op + 18 <= dst.Length && length <= 18
    modifies dst
    ensures dst[..op + length] == CopyMatch(old(dst[..op]), offset, length)
  {
    ghost var out := dst[..op];
    ghost var target := CopyMatch(out, offset, dst.Length - op);
    forall from | from >= op ensures Repeats(target, from, offset) {
      TargetRepeats(out, offset, dst.Length - op, offset, from);
    }
    assert Agrees(dst, target, op) by {
      CopyMatchKeeps(out, offset, dst.Length - op);
      assert target[..op] == out;
    }
    MemCpyTarget(dst, op, op - offset, 8, target);
    MemCpyTarget(dst, op + 8, op + 8 - offset, 8, target);
    MemCpyTarget(dst, op + 16, op + 16 - offset, 2, target);
    CopyMatchPrefix(out, offset, length, dst.Length - op);
    assert dst[..op + length] == target[..op + length];
  }

  // From the offset check to the end of the match. start is the position of the sequence's token.
  method DecodeMatch(src: seq<byte>, dst: array<byte>, start: nat, ip0: nat, op0: nat, offset: nat,
                     ghost shortcut: bool)
    returns (outcome: Outcome, ip: nat, op: nat)
    requires start + 2 < ip0 < |src| && op0 + MFLIMIT <= dst.Length
    requires shortcut ==> op0 + 18 <= dst.Length
    requires !shortcut ==> ip0 + 1 + LASTLITERALS <= |src|
    requires offset == src[ip0 - 2] as int + 256 * src[ip0 - 1] as int
    requires shortcut ==> MatchNibble(src[start]) == ML_MASK || offset < 8 || offset > op0
    modifies dst
    ensures ip <= |src| && op <= dst.Length
    ensures Took(SafeMatchStep(src, dst.Length, start, ip0 - 2, old(dst[..op0]), shortcut), outcome, ip, dst[..op])
    ensures outcome.Error? ==> ip == MatchStop(src, start, ip0 - 2, op0)
  {
    hide CopyMatch, MatchNibble, ReadExtension;
    ip, op := ip0, op0;
    if offset > op {
      return Error, ip, op;
    }
    var length: nat := MatchNibble(src[start]);
    if length == ML_MASK {
      var error, n;
      ip, n, error := ReadVariableLength(src, ip, |src| - LASTLITERALS + 1, false);
      if error != Ok {
        return Error, ip, op;
      }
      length := length + n;
    }
    length := length + MINMATCH;
    var ok := CopyMatchWide(dst, op, offset, length);
    if !ok {
      return Error, ip, op;
    }
    return Continue, ip, op + length;
  }

  // A sequence through the two-stage shortcut.
  method DecodeShortcut(src: seq<byte>, dst: array<byte>, start: nat, op0: nat)
    returns (outcome: Outcome, ip: nat, op: nat)
    requires start < |src| && op0 <= dst.Length && Shortcut(src, dst.Length, start, op0)
    modifies dst
    ensures ip <= |src| && op <= dst.Length
    ensures Took(SafeStep(src, dst.Length, start, old(dst[..op0])), outcome, ip, dst[..op])
    ensures outcome.Error? ==> ip == SequenceStop(src, dst.Length, start, op0)
  {
    hide CopyMatch, LiteralNibble, MatchNibble, SequenceStop, MatchStop, LiteralStop, LiteralsPass, ReadExtension;
    ghost var out := dst[..op0];
    ShortcutStop(src, dst.Length, start, op0);
    var length: nat := LiteralNibble(src[start]);
    MemCpyIn(dst, op0, src, start + 1, 16);
    op, ip := op0 + length, start + 1 + length;
    assert dst[..op] == out + src[start + 1..ip] by {
      assert dst[op0..op] == dst[op0..op0 + 16][..length] == src[start + 1..ip];
      assert dst[..op] == dst[..op0] + dst[op0..op];
    }
    length := MatchNibble(src[start]);
    var offset := src[ip] as int + 256 * src[ip + 1] as int;
    ip := ip + 2;
    assert SafeStep(src, dst.Length, start, out) == SafeMatchStep(src, dst.Length, start, ip - 2, dst[..op], true);
    if length != ML_MASK && offset >= 8 && offset <= op {
      CopyShort(dst, op, offset, length + MINMATCH);
      return Continue, ip, op + length + MINMATCH;
    }
    outcome, ip, op := DecodeMatch(src, dst, start, ip, op, offset, true);
  }

  // The literal length of a sequence outside the shortcut: None when the length bytes start too
  // close to the end. A length cut short by the end of the block is still too long to be accepted.
  method DecodeLiteralLength(src: seq<byte>, start: nat) returns (ok: bool, ip: nat, length: nat)
    requires start < |src|
    ensures start < ip <= |src|
    ensures !ok <==> LiteralNibble(src[start]) == RUN_MASK && start + 1 + RUN_MASK >= |src|
    ensures ip == LiteralStop(src, start)
    ensures ok ==> match LiteralsAt(src, start)
                   case None => ip + length > |src|
                   case Some(lits) => lits == LiteralRun(ip, length)
                                      || (ip + length > |src| && lits.start + lits.len > |src|)
  {
    hide LiteralNibble, ReadExtension;
    ok, ip, length := true, start + 1, LiteralNibble(src[start]);
    if length == RUN_MASK {
      var error, n;
      ip, n, error := ReadVariableLength(src, ip, |src| - RUN_MASK, true);
      if error == InitialError {
        ok := false;
        return;
      }
      length := length + n;
    }
  }

  // A sequence outside the shortcut.
  method DecodeGeneral(src: seq<byte>, dst: array<byte>, start: nat, op0: nat)
    returns (outcome: Outcome, ip: nat, op: nat)
    requires start < |src| && op0 <= dst.Length && !Shortcut(src, dst.Length, start, op0)
    modifies dst
    ensures ip <= |src| && op <= dst.Length
    ensures Took(SafeStep(src, dst.Length, start, old(dst[..op0])), outcome, ip, dst[..op])
    ensures outcome.Error? ==> ip == SequenceStop(src, dst.Length, start, op0)
  {
    hide CopyMatch, LiteralNibble, MatchNibble, LiteralsAt, SafeMatchStep, SequenceStop, MatchStop, LiteralStop;
    ghost var out := dst[..op0];
    var iend, oend := |src|, dst.Length;
    StopOf(src, oend, start, op0);
    var ok, length;
    ok, ip, length := DecodeLiteralLength(src, start);
    op := op0;
    if !ok {
      return Error, ip, op;
    }
    var cpy := op + length;
    if cpy > oend - MFLIMIT || ip + length > iend - (2 + 1 + LASTLITERALS) {
      if ip + length != iend || cpy > oend {
        return Error, ip, op;
      }
      MemCpyIn(dst, op, src, ip, length);
      assert dst[..cpy] == out + src[ip..iend];
      return EndOfBlock, iend, cpy;
    }
    WildCopy8In(dst, op, src, ip, cpy);
    assert dst[..cpy] == out + src[ip..ip + length];
    ip, op := ip + length, cpy;
    var offset := src[ip] as int + 256 * src[ip + 1] as int;
    ip := ip + 2;
    assert SafeStep(src, oend, start, out) == SafeMatchStep(src, oend, start, ip - 2, dst[..op], false);
    outcome, ip, op := DecodeMatch(src, dst, start, ip, op, offset, false);
  }

  // Decodes src into dst. The result is the number of bytes written, or negative when SafeDecode
  // rejects the block, and then says how far it was read; either way nothing outside dst is touched.
  method DecompressSafe(src: seq<byte>, dst: array<byte>) returns (r: int)
    modifies dst
    ensures -|src| - 1 <= r <= dst.Length
    ensures r >= 0 ==> SafeDecode(src, dst.Length) == Some(dst[..r])
    ensures r < 0 ==> SafeDecode(src, dst.Length) == None
    ensures r < 0 ==> r == -1 - (if dst.Length == 0 || src == [] then 0 else StoppedAt(src, dst.Length, 0, []))
  {
    hide SafeStep, LiteralNibble;
    var iend, oend := |src|, dst.Length;
    if oend == 0 {
      r := if iend == 1 && src[0] == 0 then 0 else -1;
      assert dst[..0] == [];
      return;
    }
    if iend == 0 {
      return -1;
    }
    var shortiend, shortoend := iend - 14 - 2, oend - 14 - 18;
    var ip, op := 0, 0;
    assert dst[..0] == [];
    while true
      invariant ip < iend && op <= oend
      invariant SafeDecode(src, oend) == SafeRun(src, oend, ip, dst[..op])
      invariant StoppedAt(src, oend, 0, []) == StoppedAt(src, oend, ip, dst[..op])
      decreases iend - ip
    {
      ghost var step := SafeStep(src, oend, ip, dst[..op]);
      var outcome;
      if LiteralNibble(src[ip]) != RUN_MASK && ip + 1 < shortiend && op <= shortoend {
        outcome, ip, op := DecodeShortcut(src, dst, ip, op);
      } else {
        outcome, ip, op := DecodeGeneral(src, dst, ip, op);
      }
      assert Took(step, outcome, ip, dst[..op]);
      match outcome
      case Error => return -ip - 1;
      case EndOfBlock => return op;
      case Continue =>
    }
  }
}
