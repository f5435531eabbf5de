/**
 The price table of the optimal parser of LZ4 HC. Cell p describes the last step of a path to
 position p and what the path costs in output bytes. Here the table is a value: what the three
 loops that fill it do to it, and why its prices are exact whatever the match finder answers.
 */
module Lz4HcPrices {
  import opened Bytes
  import opened Lz4Format

  const LZ4_OPT_NUM := 4096
  const TRAILING_LITERALS := 3

  // ---------------------------------------------------------------- prices

  function LiteralsPrice(litlen: nat): nat {
    if litlen >= RUN_MASK then litlen + 1 + (litlen - RUN_MASK) / 255 else litlen
  }

  function SequencePrice(litlen: nat, mlen: nat): nat
    requires mlen >= MINMATCH
  {
    var price := 1 + 2 + LiteralsPrice(litlen);
    if mlen >= ML_MASK + MINMATCH then price + 1 + (mlen - (ML_MASK + MINMATCH)) / 255 else price
  }

  // The price of a sequence is the number of bytes its encoding takes.
  lemma PriceIsExact(s: Sequence)
    requires s.matchLen >= MINMATCH
    ensures |EncodeSequence(s)| == SequencePrice(|s.lits|, s.matchLen)
    ensures |LiteralPart(s.lits, 0)| == 1 + LiteralsPrice(|s.lits|)
  {
  }

  // The bytes a match length takes beyond its nibble, and the whole spans of 255 in a distance.
  function Extra(mlen: nat): nat {
    if mlen < ML_MASK + MINMATCH then 0 else 1 + (mlen - (ML_MASK + MINMATCH)) / 255
  }

  function Spans(d: nat): nat {
    d / 255
  }

  // What one more literal costs after a run of a given length.
  function LiteralStep(run: nat): nat {
    LiteralsPrice(run + 1) - LiteralsPrice(run)
  }

  lemma LiteralSteps(run: nat)
    ensures 1 <= LiteralStep(run) <= 2
    ensures 2 <= LiteralsPrice(run + 2) - LiteralsPrice(run) <= 3
    ensures 3 <= LiteralsPrice(run + 3) - LiteralsPrice(run) <= 4
    ensures LiteralsPrice(run + 2) - LiteralsPrice(run) == LiteralStep(run) + LiteralStep(run + 1)
    ensures LiteralsPrice(run + 3) - LiteralsPrice(run)
            == LiteralStep(run) + LiteralStep(run + 1) + LiteralStep(run + 2)
  {
  }

  lemma FewLiterals()
    ensures forall k: nat :: k <= 3 ==> LiteralsPrice(k) == k && LiteralStep(k) == 1
  {
  }

  lemma SequencePriceParts(litlen: nat, mlen: nat)
    requires mlen >= MINMATCH
    ensures SequencePrice(litlen, mlen) == 3 + LiteralsPrice(litlen) + Extra(mlen)
  {
  }

  lemma ExtraStep(m: nat)
    ensures Extra(m) <= Extra(m + 1) <= Extra(m) + 1
  {
  }

  lemma ExtraRises(a: nat, d: nat)
    ensures Extra(a) + Spans(d) <= Extra(a + d)
  {
  }

  lemma ExtraBounded(y: nat, x: nat)
    ensures Extra(y + x + 1) <= Extra(y) + Spans(x) + 1
  {
  }

  lemma ExtraSum(a: nat, b: nat)
    ensures Extra(a + b) <= Extra(a) + Extra(b) + 1
  {
  }

  lemma SpansSum(a: nat, b: nat)
    ensures Spans(a) <= Spans(a + b) <= Spans(a) + Spans(b) + 1
    ensures b <= 3 ==> Spans(b) == 0
    ensures Spans(a) <= Extra(a)
  {
  }

  // ---------------------------------------------------------------- the table

  // The last step of a path to a position: a literal (mlen 1) or a match that ends there.
  datatype Cell = Cell(price: int, off: nat, mlen: nat, litlen: nat)

  // What an earlier round left in a cell counts for nothing: until this round sets it, it is unset.
  datatype Slot = Unset | Set(c: Cell)

  type Table = seq<Slot>

  function Blank(): Table {
    seq(LZ4_OPT_NUM + TRAILING_LITERALS, i => Unset)
  }

  ghost predicate AllSet(t: Table, top: nat) {
    top < |t| && forall p :: 0 <= p <= top ==> t[p].Set?
  }

  // The price recorded at a position, and the literals that wait there to be sent.
  function Price(t: Table, p: nat): int {
    if p < |t| && t[p].Set? then t[p].c.price else 0
  }

  predicate IsMatch(t: Table, p: nat) {
    p < |t| && t[p].Set? && t[p].c.mlen != 1
  }

  function Waiting(t: Table, p: nat): nat {
    if p < |t| && t[p].Set? && t[p].c.mlen == 1 then t[p].c.litlen else 0
  }

  // The first four cells, after llen literals.
  function FirstLiterals(t: Table, llen: nat): Table {
    seq(|t|, i requires 0 <= i < |t| =>
      if i < MINMATCH then Set(Cell(LiteralsPrice(llen + i), 0, 1, llen + i)) else t[i])
  }

  // Three literals after the last match.
  function Trailing(t: Table, last: nat): Table
    requires last < |t| && t[last].Set?
  {
    seq(|t|, i requires 0 <= i < |t| =>
      if last < i <= last + TRAILING_LITERALS then
        Set(Cell(t[last].c.price + LiteralsPrice(i - last), 0, 1, i - last))
      else t[i])
  }

  // One to three literals after cur, where they are cheaper than what is recorded.
  function LiteralCell(t: Table, cur: nat, k: nat): Cell
    requires cur < |t| && t[cur].Set?
  {
    var base := t[cur].c.litlen;
    Cell(t[cur].c.price - LiteralsPrice(base) + LiteralsPrice(base + k), 0, 1, base + k)
  }

  function WithLiterals(t: Table, cur: nat): Table
    requires AllSet(t, cur + 3)
  {
    seq(|t|, i requires 0 <= i < |t| =>
      if cur < i < cur + MINMATCH && LiteralCell(t, cur, i - cur).price < t[i].c.price then
        Set(LiteralCell(t, cur, i - cur))
      else t[i])
  }

  // A match of length ml that starts at cur: the literals sent with it, and the price of the path.
  function MatchLitlen(t: Table, cur: nat): nat
    requires cur < |t| && t[cur].Set?
  {
    if t[cur].c.mlen == 1 then t[cur].c.litlen else 0
  }

  function MatchPrice(t: Table, cur: nat, ml: nat): int
    requires AllSet(t, cur) && MINMATCH <= ml
  {
    if t[cur].c.mlen == 1 then
      var ll := t[cur].c.litlen;
      (if cur > ll then t[cur - ll].c.price else 0) + SequencePrice(ll, ml)
    else t[cur].c.price + SequencePrice(0, ml)
  }

  // Where a match is recorded: where nothing is yet, or where it is no dearer than what is.
  predicate Taken(t: Table, cur: nat, last: nat, ml: nat, favorDecSpeed: bool)
    requires AllSet(t, last + TRAILING_LITERALS) && cur <= last && MINMATCH <= ml
  {
    var pos := cur + ml;
    pos > last + TRAILING_LITERALS ||
    MatchPrice(t, cur, ml) <= t[pos].c.price - (if favorDecSpeed then 1 else 0)
  }

  function WithMatch(t: Table, cur: nat, last: nat, off: nat, len: nat, favorDecSpeed: bool): Table
    requires AllSet(t, last + TRAILING_LITERALS) && cur <= last
  {
    seq(|t|, i requires 0 <= i < |t| =>
      if cur + MINMATCH <= i <= cur + len && Taken(t, cur, last, i - cur, favorDecSpeed) then
        Set(Cell(MatchPrice(t, cur, i - cur), off, i - cur, MatchLitlen(t, cur)))
      else t[i])
  }

  function LastAfter(t: Table, cur: nat, last: nat, len: nat, favorDecSpeed: bool): (l: nat)
    requires AllSet(t, last + TRAILING_LITERALS) && cur <= last && MINMATCH <= len
    ensures last <= l && (l == last || l == cur + len)
  {
    if last < cur + len && Taken(t, cur, last, len, favorDecSpeed) then cur + len else last
  }

  // Everything a match found at cur does to the table.
  function AfterMatch(t: Table, cur: nat, last: nat, off: nat, len: nat, favorDecSpeed: bool): Table
    requires AllSet(t, last + TRAILING_LITERALS) && cur <= last && MINMATCH <= len
    requires cur + len + TRAILING_LITERALS < |t|
  {
    Trailing(WithMatch(t, cur, last, off, len, favorDecSpeed), LastAfter(t, cur, last, len, favorDecSpeed))
  }

  // ---------------------------------------------------------------- what holds of every table

  // A literal costs one more literal than the path before it; a match costs its sequence, the
  // literals before it being paid for already. Matches start before position bound.
  ghost predicate StepPriced(t: Table, p: nat, bound: nat)
    requires 1 <= p < |t| && t[p].Set?
  {
    var c := t[p].c;
    if c.mlen == 1 then
      c.off == 0 && c.litlen == Waiting(t, p - 1) + 1 && c.price == Price(t, p - 1) + LiteralStep(Waiting(t, p - 1))
    else
      && MINMATCH <= c.mlen <= p && p - c.mlen < bound
      && c.litlen == Waiting(t, p - c.mlen) && c.price == Price(t, p - c.mlen) + 3 + Extra(c.mlen)
  }

  ghost predicate Consistent(t: Table, top: nat, bound: nat, llen: nat) {
    && AllSet(t, top)
    && t[0].c.mlen == 1 && t[0].c.litlen == llen && t[0].c.price == LiteralsPrice(llen)
    && forall p :: 1 <= p <= top ==> StepPriced(t, p, bound)
  }

  // The next position costs at most one literal more.
  ghost predicate Gentle(t: Table, p: nat) {
    Price(t, p + 1) <= Price(t, p) + LiteralStep(Waiting(t, p))
  }

  ghost predicate Slope(t: Table, top: nat) {
    forall p :: 0 <= p < top ==> Gentle(t, p)
  }

  // A literal dearer than the match that ends right after it. The search passes over such a place.
  ghost predicate Dear(t: Table, q: nat, last: nat) {
    q + 1 <= last && IsMatch(t, q + 1) && Price(t, q + 1) < Price(t, q)
  }

  // Farther positions cost at least as much, and more by what the distance adds to a match length.
  ghost predicate Rises(t: Table, q: nat, p: nat, last: nat)
    requires q < p
  {
    Price(t, q) + Spans(p - q) <= Price(t, p) + (if Dear(t, q, last) then 1 else 0)
  }

  ghost predicate Rising(t: Table, last: nat) {
    forall q, p :: 0 <= q < p <= last + TRAILING_LITERALS ==> Rises(t, q, p, last)
  }

  // And not much more: a match from q that ends just before p costs at most one byte less than p.
  ghost predicate Near(t: Table, q: nat, p: nat)
    requires q + 5 <= p
  {
    Price(t, p) <= Price(t, q) + 4 + Extra(p - 1 - q)
  }

  // If p is at least the second literal of a run, at most the same.
  ghost predicate Nearer(t: Table, q: nat, p: nat)
    requires q + 5 <= p
  {
    Waiting(t, p) >= 2 ==> Price(t, p) <= Price(t, q) + 3 + Extra(p - 1 - q)
  }

  ghost predicate Bounded(t: Table, cur: nat, last: nat, favorDecSpeed: bool) {
    forall q, p :: cur <= q && q + 5 <= p <= last ==> Near(t, q, p) && (favorDecSpeed || Nearer(t, q, p))
  }

  // The last match and the literals after it.
  ghost predicate Tail(t: Table, last: nat) {
    && (last > 0 ==> IsMatch(t, last))
    && !IsMatch(t, last + 1) && !IsMatch(t, last + 2) && !IsMatch(t, last + 3)
  }

  ghost predicate Sound(t: Table, cur: nat, last: nat, llen: nat, favorDecSpeed: bool) {
    && cur <= last && last + TRAILING_LITERALS < |t|
    && Consistent(t, last + TRAILING_LITERALS, cur, llen)
    && Slope(t, last + TRAILING_LITERALS)
    && Rising(t, last)
    && Bounded(t, cur, last, favorDecSpeed)
    && Tail(t, last)
  }

  // ---------------------------------------------------------------- prices of runs and matches

  // The price before a run of literals, and the run.
  lemma {:induction false} RunPrice(t: Table, q: nat, top: nat, bound: nat, llen: nat)
    requires Consistent(t, top, bound, llen) && q <= top
    ensures Price(t, q) == (if q > Waiting(t, q) then Price(t, q - Waiting(t, q)) else 0) + LiteralsPrice(Waiting(t, q))
  {
    hide LiteralsPrice;
    FewLiterals();
    if q > 0 && t[q].c.mlen == 1 {
      assert StepPriced(t, q, bound);
      RunPrice(t, q - 1, top, bound, llen);
    }
  }

  // So a match costs what its start costs, its token and offset, and its length.
  lemma MatchPriceIs(t: Table, cur: nat, ml: nat, top: nat, bound: nat, llen: nat)
    requires Consistent(t, top, bound, llen) && cur <= top && MINMATCH <= ml
    ensures MatchPrice(t, cur, ml) == Price(t, cur) + 3 + Extra(ml)
    ensures MatchLitlen(t, cur) == Waiting(t, cur)
  {
    hide SequencePrice, LiteralsPrice;
    RunPrice(t, cur, top, bound, llen);
    SequencePriceParts(Waiting(t, cur), ml);
    FewLiterals();
  }

  // One to three positions on, a path costs at most that many literals more.
  lemma ThreeOn(t: Table, cur: nat, k: nat, top: nat, bound: nat, llen: nat)
    requires Consistent(t, top, bound, llen) && Slope(t, top) && cur + 3 <= top && 1 <= k <= 3
    ensures var run := Waiting(t, cur);
            Price(t, cur + k) <= Price(t, cur) + LiteralsPrice(run + k) - LiteralsPrice(run)
    ensures Price(t, cur + k) <= Price(t, cur) + k + 1
  {
    hide LiteralsPrice, LiteralStep;
    var r := Waiting(t, cur);
    LiteralSteps(r);
    LiteralSteps(r + 1);
    LiteralSteps(r + 2);
    FewLiterals();
    assert Gentle(t, cur) && Gentle(t, cur + 1) && Gentle(t, cur + 2);
    assert StepPriced(t, cur + 1, bound) && StepPriced(t, cur + 2, bound);
  }

  // Therefore the literal relaxation never finds anything cheaper.
  lemma LiteralsNeverPay(t: Table, cur: nat, last: nat, llen: nat, favorDecSpeed: bool)
    requires Sound(t, cur, last, llen, favorDecSpeed)
    ensures WithLiterals(t, cur) == t
  {
    hide LiteralCell, Rising, Bounded, Slope, Consistent, Tail;
    SoundSets(t, cur, last, llen, favorDecSpeed);
    OneLiteral(t, cur, 1, last, llen, favorDecSpeed);
    OneLiteral(t, cur, 2, last, llen, favorDecSpeed);
    OneLiteral(t, cur, 3, last, llen, favorDecSpeed);
    forall i | 0 <= i < |t| ensures WithLiterals(t, cur)[i] == t[i] {
    }
  }

  lemma OneLiteral(t: Table, cur: nat, k: nat, last: nat, llen: nat, favorDecSpeed: bool)
    requires Sound(t, cur, last, llen, favorDecSpeed) && 1 <= k <= 3
    ensures cur + k < |t| && t[cur].Set? && t[cur + k].Set?
    ensures LiteralCell(t, cur, k).price >= t[cur + k].c.price
  {
    hide LiteralsPrice, Rising, Bounded, Slope, Tail;
    ThreeOn(t, cur, k, last + TRAILING_LITERALS, cur, llen);
    LiteralSteps(t[cur].c.litlen);
    FewLiterals();
  }

  lemma SoundSets(t: Table, cur: nat, last: nat, llen: nat, favorDecSpeed: bool)
    requires Sound(t, cur, last, llen, favorDecSpeed)
    ensures AllSet(t, last + TRAILING_LITERALS) && cur <= last
  {
  }

  // ---------------------------------------------------------------- one match

  // What a match of len bytes at cur did to the table t, giving u.
  datatype Change = Change(t: Table, u: Table, cur: nat, last: nat, last': nat, len: nat, favorDecSpeed: bool)

  ghost function Cost(c: Change, p: nat): int
    requires c.cur <= p
  {
    Price(c.t, c.cur) + 3 + Extra(p - c.cur)
  }

  ghost predicate Reconsidered(c: Change, p: nat)
    requires c.cur + MINMATCH <= p < |c.t| && p < |c.u|
  {
    if p > c.last + TRAILING_LITERALS || Cost(c, p) <= Price(c.t, p) - (if c.favorDecSpeed then 1 else 0) then
      && c.u[p].Set? && c.u[p].c.mlen == p - c.cur
      && c.u[p].c.price == Cost(c, p) && c.u[p].c.litlen == Waiting(c.t, c.cur)
    else c.u[p] == c.t[p]
  }

  ghost predicate TrailingAt(c: Change, k: nat)
    requires c.last' + k < |c.u|
  {
    var i := c.last' + k;
    c.u[i].Set? && c.u[i].c.mlen == 1 && c.u[i].c.off == 0 && c.u[i].c.litlen == k &&
        c.u[i].c.price == Price(c.u, c.last') + k
  }

  // The table is as it was up to cur + 3, reconsidered while the match lasts, as it was after it up
  // to the last match, and closed by three literals.
  ghost predicate Changed(c: Change) {
    && c.cur <= c.last <= c.last' && c.last' + TRAILING_LITERALS < |c.u| == |c.t| && MINMATCH <= c.len
    && (c.last' == c.last || c.last' == c.cur + c.len)
    && (forall p :: 0 <= p <= c.cur + 3 ==> c.u[p] == c.t[p])
    && (forall p :: c.cur + MINMATCH <= p <= c.cur + c.len && p <= c.last' ==> Reconsidered(c, p))
    && (forall p :: c.cur + c.len < p <= c.last ==> c.u[p] == c.t[p])
    && TrailingAt(c, 1) && TrailingAt(c, 2) && TrailingAt(c, 3)
    && (c.last' == c.last ==> c.cur + c.len <= c.last + TRAILING_LITERALS)
    && (c.last' == c.cur + c.len > c.last ==> IsMatch(c.u, c.last'))
  }

  // The match starts at a place the search does not pass over, with everything before it in order.
  ghost predicate Ready(c: Change, llen: nat) {
    && Sound(c.t, c.cur, c.last, llen, c.favorDecSpeed)
    && !Dear(c.t, c.cur, c.last)
    && (c.cur < c.last || c.last == 0)
    && Changed(c)
  }

  ghost function ChangeBy(t: Table, cur: nat, last: nat, off: nat, len: nat, favorDecSpeed: bool): Change
    requires AllSet(t, last + TRAILING_LITERALS) && cur <= last && MINMATCH <= len
    requires cur + len + TRAILING_LITERALS < |t|
  {
    Change(t, AfterMatch(t, cur, last, off, len, favorDecSpeed), cur, last,
           LastAfter(t, cur, last, len, favorDecSpeed), len, favorDecSpeed)
  }

  // One cell of the result: a trailing literal, the match, or what was there.
  lemma AfterMatchAt(t: Table, cur: nat, last: nat, off: nat, len: nat, favorDecSpeed: bool, p: nat)
    requires AllSet(t, last + TRAILING_LITERALS) && cur <= last && MINMATCH <= len
    requires cur + len + TRAILING_LITERALS < |t| && p < |t|
    ensures var u, last' := AfterMatch(t, cur, last, off, len, favorDecSpeed),
            LastAfter(t, cur, last, len, favorDecSpeed);
            && |u| == |t|
            && (last' < p <= last' + 3 ==> u[p] == Set(Cell(Price(u, last') + p - last', 0, 1, p - last')))
            && (!(last' < p <= last' + 3) ==>
                 u[p] == if cur + MINMATCH <= p <= cur + len && Taken(t, cur, last, p - cur, favorDecSpeed)
                         then Set(Cell(MatchPrice(t, cur, p - cur), off, p - cur, MatchLitlen(t, cur))) else t[p])
  {
    hide MatchPrice, MatchLitlen, LiteralsPrice, Taken;
    FewLiterals();
    var m := WithMatch(t, cur, last, off, len, favorDecSpeed);
    assert m[p] == if cur + MINMATCH <= p <= cur + len && Taken(t, cur, last, p - cur, favorDecSpeed)
                   then Set(Cell(MatchPrice(t, cur, p - cur), off, p - cur, MatchLitlen(t, cur))) else t[p];
  }

  lemma AfterMatchChanges(t: Table, cur: nat, last: nat, off: nat, len: nat, favorDecSpeed: bool, llen: nat)
    requires Sound(t, cur, last, llen, favorDecSpeed) && (cur < last || last == 0)
    requires MINMATCH <= len && cur + len + TRAILING_LITERALS < |t|
    ensures AllSet(t, last + TRAILING_LITERALS) && cur <= last
    ensures Changed(ChangeBy(t, cur, last, off, len, favorDecSpeed))
  {
    SoundSets(t, cur, last, llen, favorDecSpeed);
    hide MatchPrice, MatchLitlen, Sound, LiteralsPrice, Reconsidered, Cost, Extra, AfterMatch, Taken;
    var c := ChangeBy(t, cur, last, off, len, favorDecSpeed);
    forall p | 0 <= p < |t|
      ensures |c.u| == |t|
      ensures p <= cur + 3 ==> c.u[p] == t[p]
      ensures cur + len < p <= last ==> c.u[p] == t[p]
      ensures cur + MINMATCH <= p <= cur + len && p <= c.last' ==> Reconsidered(c, p)
    {
      OneCell(t, cur, last, off, len, favorDecSpeed, llen, p);
    }
    LastOfAll(t, cur, last, off, len, favorDecSpeed);
  }

  lemma OneCell(t: Table, cur: nat, last: nat, off: nat, len: nat, favorDecSpeed: bool, llen: nat, p: nat)
    requires Sound(t, cur, last, llen, favorDecSpeed) && (cur < last || last == 0)
    requires MINMATCH <= len && cur + len + TRAILING_LITERALS < |t| && p < |t|
    ensures AllSet(t, last + TRAILING_LITERALS) && cur <= last
    ensures var c := ChangeBy(t, cur, last, off, len, favorDecSpeed);
            && |c.u| == |t|
            && (p <= cur + 3 ==> c.u[p] == t[p])
            && (cur + len < p <= last ==> c.u[p] == t[p])
            && (cur + MINMATCH <= p <= cur + len && p <= c.last' ==> Reconsidered(c, p))
  {
    hide MatchPrice, MatchLitlen, Sound, LiteralsPrice, AfterMatch, Extra, Reconsidered;
    SoundSets(t, cur, last, llen, favorDecSpeed);
    AfterMatchAt(t, cur, last, off, len, favorDecSpeed, p);
    if cur + MINMATCH <= p <= cur + len && p <= LastAfter(t, cur, last, len, favorDecSpeed) {
      CellReconsidered(t, cur, last, off, len, favorDecSpeed, llen, p);
    }
    if 0 < last < p <= last + 3 {
      SameTail(t, cur, last, llen, favorDecSpeed, p - last);
      AfterMatchAt(t, cur, last, off, len, favorDecSpeed, last);
    }
  }

  lemma CellReconsidered(t: Table, cur: nat, last: nat, off: nat, len: nat, favorDecSpeed: bool, llen: nat, p: nat)
    requires Sound(t, cur, last, llen, favorDecSpeed) && (cur < last || last == 0)
    requires MINMATCH <= len && cur + len + TRAILING_LITERALS < |t| && p < |t|
    requires cur + MINMATCH <= p <= cur + len
    ensures AllSet(t, last + TRAILING_LITERALS) && cur <= last
    ensures var c := ChangeBy(t, cur, last, off, len, favorDecSpeed); p <= c.last' ==> Reconsidered(c, p)
  {
    hide MatchPrice, MatchLitlen, Sound, LiteralsPrice, AfterMatch, Extra;
    SoundSets(t, cur, last, llen, favorDecSpeed);
    AfterMatchAt(t, cur, last, off, len, favorDecSpeed, p);
    MatchCostIs(t, cur, p - cur, last, llen, favorDecSpeed);
    if 0 < last < p <= last + 3 {
      SameTail(t, cur, last, llen, favorDecSpeed, p - last);
      AfterMatchAt(t, cur, last, off, len, favorDecSpeed, last);
    }
  }

  lemma MatchCostIs(t: Table, cur: nat, ml: nat, last: nat, llen: nat, favorDecSpeed: bool)
    requires Sound(t, cur, last, llen, favorDecSpeed) && MINMATCH <= ml
    ensures AllSet(t, cur)
    ensures MatchPrice(t, cur, ml) == Price(t, cur) + 3 + Extra(ml) && MatchLitlen(t, cur) == Waiting(t, cur)
  {
    MatchPriceIs(t, cur, ml, last + TRAILING_LITERALS, cur, llen);
  }

  lemma LastOfAll(t: Table, cur: nat, last: nat, off: nat, len: nat, favorDecSpeed: bool)
    requires AllSet(t, last + TRAILING_LITERALS) && cur <= last && MINMATCH <= len
    requires cur + len + TRAILING_LITERALS < |t|
    ensures var c := ChangeBy(t, cur, last, off, len, favorDecSpeed);
            && |c.u| == |t| && TrailingAt(c, 1) && TrailingAt(c, 2) && TrailingAt(c, 3)
            && (c.last' == c.last ==> c.cur + c.len <= c.last + TRAILING_LITERALS)
            && (c.last' == c.cur + c.len > c.last ==> IsMatch(c.u, c.last'))
  {
    hide MatchPrice, MatchLitlen, LiteralsPrice, AfterMatch;
    var last' := LastAfter(t, cur, last, len, favorDecSpeed);
    AfterMatchAt(t, cur, last, off, len, favorDecSpeed, last');
    AfterMatchAt(t, cur, last, off, len, favorDecSpeed, last' + 1);
    AfterMatchAt(t, cur, last, off, len, favorDecSpeed, last' + 2);
    AfterMatchAt(t, cur, last, off, len, favorDecSpeed, last' + 3);
  }

  // Rewriting the three literals after an unchanged last match changes nothing.
  lemma SameTail(t: Table, cur: nat, last: nat, llen: nat, favorDecSpeed: bool, k: nat)
    requires Sound(t, cur, last, llen, favorDecSpeed) && 1 <= k <= 3
    ensures last + k < |t| && t[last].Set?
    ensures last > 0 ==> t[last + k] == Set(Cell(t[last].c.price + k, 0, 1, k))
  {
    hide LiteralsPrice, LiteralStep, Rising, Bounded;
    FewLiterals();
    assert StepPriced(t, last + 1, cur) && StepPriced(t, last + 2, cur) && StepPriced(t, last + 3, cur);
  }

  // ---------------------------------------------------------------- one match keeps the table sound

  ghost predicate InMatch(c: Change, p: nat) {
    c.cur + MINMATCH <= p <= c.cur + c.len && p <= c.last'
  }

  // Whether the match was recorded at p.
  ghost predicate Recorded(c: Change, p: nat)
    requires c.cur <= p
  {
    p > c.last + TRAILING_LITERALS || Cost(c, p) <= Price(c.t, p) - (if c.favorDecSpeed then 1 else 0)
  }

  // No price goes up, none inside the match stays above it, and a match stays a match.
  lemma NotHigher(c: Change, llen: nat, p: nat)
    requires Ready(c, llen) && p <= c.last'
    ensures p <= c.last + TRAILING_LITERALS ==> Price(c.u, p) <= Price(c.t, p) && (IsMatch(c.t, p) ==> IsMatch(c.u, p))
    ensures InMatch(c, p) ==> Price(c.u, p) <= Cost(c, p)
    ensures c.u[p].Set?
    ensures InMatch(c, p) && Recorded(c, p) ==>
              IsMatch(c.u, p) && Waiting(c.u, p) == 0 && Price(c.u, p) == Cost(c, p) && c.u[p].c.mlen == p - c.cur
              && c.u[p].c.litlen == Waiting(c.t, c.cur)
    ensures !(InMatch(c, p) && Recorded(c, p)) ==> c.u[p] == c.t[p] && p <= c.last + TRAILING_LITERALS
  {
    hide Rising, Bounded, Slope, StepPriced, Extra;
    if InMatch(c, p) {
      assert Reconsidered(c, p);
    }
  }

  // Just after a match that was recorded and ends inside the table.
  lemma JustAfter(c: Change, llen: nat)
    requires Ready(c, llen) && c.cur + c.len < c.last && Recorded(c, c.cur + c.len)
    ensures var e := c.cur + c.len;
            && Price(c.t, e + 1) <= Cost(c, e) + 1
            && (!IsMatch(c.t, e + 1) ==> Waiting(c.t, e) == 0 && !c.favorDecSpeed && Price(c.t, e) == Cost(c, e))
  {
    hide Rising, Slope, Extra, LiteralStep;
    var e := c.cur + c.len;
    assert Near(c.t, c.cur, e + 1) && (c.favorDecSpeed || Nearer(c.t, c.cur, e + 1));
    assert StepPriced(c.t, e + 1, c.cur) && StepPriced(c.t, e, c.cur);
    LiteralSteps(Waiting(c.t, e));
  }

  lemma StepStays(c: Change, llen: nat, p: nat)
    requires Ready(c, llen) && 1 <= p <= c.last' && c.u[p].Set?
    ensures StepPriced(c.u, p, c.cur + 1)
  {
    hide Rising, Bounded, Slope, Extra, LiteralStep, LiteralsPrice, StepPriced;
    NotHigher(c, llen, p);
    NotHigher(c, llen, p - 1);
    if InMatch(c, p) && Recorded(c, p) {
      RecordedStep(c, llen, p);
    } else {
      assert StepPriced(c.t, p, c.cur);
      if c.t[p].c.mlen == 1 && InMatch(c, p - 1) && Recorded(c, p - 1) {
        LiteralAfterMatch(c, llen, p);
      } else {
        UnchangedStep(c, p);
      }
    }
  }

  lemma RecordedStep(c: Change, llen: nat, p: nat)
    requires Ready(c, llen) && InMatch(c, p) && Recorded(c, p)
    ensures c.u[p].Set? && StepPriced(c.u, p, c.cur + 1)
  {
    hide Rising, Bounded, Slope, Extra;
    assert Reconsidered(c, p);
  }

  lemma UnchangedStep(c: Change, p: nat)
    requires Changed(c) && 1 <= p < |c.t| && c.u[p] == c.t[p] && c.t[p].Set? && StepPriced(c.t, p, c.cur)
    requires c.t[p].c.mlen == 1 ==> c.u[p - 1] == c.t[p - 1]
    ensures StepPriced(c.u, p, c.cur + 1)
  {
  }

  // A literal after a recorded match is recorded with it, or costs one byte more as before.
  lemma LiteralAfterMatch(c: Change, llen: nat, p: nat)
    requires Ready(c, llen) && 1 <= p <= c.last' && c.u[p] == c.t[p] && c.t[p].Set? && c.t[p].c.mlen == 1
    requires !(InMatch(c, p) && Recorded(c, p)) && InMatch(c, p - 1) && Recorded(c, p - 1)
    ensures StepPriced(c.u, p, c.cur + 1)
  {
    hide Rising, Bounded, Slope, Extra, LiteralsPrice, LiteralStep;
    NotHigher(c, llen, p);
    NotHigher(c, llen, p - 1);
    assert StepPriced(c.t, p, c.cur);
    FewLiterals();
    if InMatch(c, p) {
      LiteralSteps(Waiting(c.t, p - 1));
      ExtraStep(p - 1 - c.cur);
      assert false;
    } else {
      JustAfter(c, llen);
    }
  }

  lemma TrailingStep(c: Change, llen: nat, k: nat)
    requires Ready(c, llen) && 1 <= k <= 3
    ensures c.u[c.last' + k].Set? && StepPriced(c.u, c.last' + k, c.cur + 1)
    ensures IsMatch(c.u, c.last') && !IsMatch(c.u, c.last' + k)
    ensures Price(c.u, c.last' + k) == Price(c.u, c.last') + k && Waiting(c.u, c.last' + k) == k
  {
    hide Rising, Bounded, Slope, Extra, LiteralsPrice, LiteralStep;
    FewLiterals();
    NotHigher(c, llen, c.last');
    assert TrailingAt(c, 1) && TrailingAt(c, 2) && TrailingAt(c, 3);
  }

  lemma StaysConsistent(c: Change, llen: nat)
    requires Ready(c, llen)
    ensures Consistent(c.u, c.last' + TRAILING_LITERALS, c.cur + 1, llen) && Tail(c.u, c.last')
  {
    hide Rising, Bounded, Slope, StepPriced, IsMatch;
    TrailingStep(c, llen, 1);
    TrailingStep(c, llen, 2);
    TrailingStep(c, llen, 3);
    assert c.u[0] == c.t[0];
    var u, bound := c.u, c.cur + 1;
    forall p | 0 <= p <= c.last' + 3 ensures u[p].Set? {
      assert p > c.last' ==> p == c.last' + 1 || p == c.last' + 2 || p == c.last' + 3;
      if p <= c.last' {
        NotHigher(c, llen, p);
      }
    }
    forall p | 1 <= p <= c.last' + 3 ensures StepPriced(u, p, bound) {
      assert p > c.last' ==> p == c.last' + 1 || p == c.last' + 2 || p == c.last' + 3;
      if p <= c.last' {
        StepStays(c, llen, p);
      }
    }
  }

  lemma StaysGentle(c: Change, llen: nat, p: nat)
    requires Ready(c, llen) && p < c.last' + TRAILING_LITERALS
    ensures Gentle(c.u, p)
  {
    hide Rising, Bounded, Extra, LiteralsPrice, LiteralStep, StepPriced, Consistent;
    FewLiterals();
    LiteralSteps(Waiting(c.u, p));
    if p >= c.last' {
      TrailingStep(c, llen, p + 1 - c.last');
      if p > c.last' {
        TrailingStep(c, llen, p - c.last');
      }
    } else {
      NotHigher(c, llen, p);
      NotHigher(c, llen, p + 1);
      if InMatch(c, p) && Recorded(c, p) {
        ExtraStep(p - c.cur);
        if !InMatch(c, p + 1) {
          JustAfter(c, llen);
        }
      } else if p < c.last + TRAILING_LITERALS {
        assert Gentle(c.t, p);
      } else {
        EndIsGentle(c, llen);
      }
    }
  }

  // Where the match runs past the old trailing literals.
  lemma EndIsGentle(c: Change, llen: nat)
    requires Ready(c, llen) && c.last + TRAILING_LITERALS < c.last'
    ensures Cost(c, c.last + 4) <= Price(c.t, c.last + 3) + 1
  {
    hide Bounded, LiteralsPrice, LiteralStep, Slope, Extra, Spans;
    FewLiterals();
    assert StepPriced(c.t, c.last + 1, c.cur) && StepPriced(c.t, c.last + 2, c.cur) &&
        StepPriced(c.t, c.last + 3, c.cur);
    LiteralSteps(Waiting(c.t, c.last));
    LiteralSteps(Waiting(c.t, c.last + 1));
    LiteralSteps(Waiting(c.t, c.last + 2));
    EndDistance(c.last - c.cur);
    if c.cur < c.last {
      assert Rises(c.t, c.cur, c.last, c.last);
    }
  }

  lemma EndDistance(d: nat)
    ensures Extra(d + 4) <= Spans(d) + 1 && (d == 0 ==> Extra(d + 4) == 0)
  {
  }

  lemma StaysRising(c: Change, llen: nat, q: nat, p: nat)
    requires Ready(c, llen) && q < p <= c.last'
    ensures Rises(c.u, q, p, c.last')
  {
    hide Bounded, Extra, LiteralsPrice, LiteralStep, StepPriced, Slope, Consistent;
    NotHigher(c, llen, p);
    NotHigher(c, llen, q);
    NotHigher(c, llen, q + 1);
    if InMatch(c, p) && Recorded(c, p) {
      RisesToMatch(c, llen, q, p);
    } else {
      assert Rises(c.t, q, p, c.last);
    }
  }

  lemma RisesToMatch(c: Change, llen: nat, q: nat, p: nat)
    requires Ready(c, llen) && q < p && InMatch(c, p) && Recorded(c, p)
    ensures Rises(c.u, q, p, c.last')
  {
    hide Bounded, Extra, LiteralsPrice, LiteralStep, StepPriced, Slope, Consistent, Spans, Sound;
    NotHigher(c, llen, p);
    NotHigher(c, llen, q);
    if q <= c.cur {
      SpansSum(p - c.cur, c.cur - q);
      FromBefore(c, llen, q);
    } else if q <= c.cur + 3 {
      ExtraRises(q - c.cur, p - q);
      FromLiterals(c, llen, q);
    } else {
      ExtraRises(q - c.cur, p - q);
    }
  }

  lemma FromBefore(c: Change, llen: nat, q: nat)
    requires Ready(c, llen) && q <= c.cur
    ensures Price(c.u, q) == Price(c.t, q) && Price(c.t, q) + Spans(c.cur - q) <= Price(c.t, c.cur) + 1
  {
    hide Bounded, Slope, Consistent;
    if q < c.cur {
      assert Rises(c.t, q, c.cur, c.last);
    }
  }

  // The third literal may cost one byte more than the shortest match, and is dear then.
  lemma FromLiterals(c: Change, llen: nat, q: nat)
    requires Ready(c, llen) && c.cur < q <= c.cur + 3 && c.cur + MINMATCH <= c.last'
    ensures Price(c.u, q) <= Price(c.t, c.cur) + 3 + (if Dear(c.u, q, c.last') then 1 else 0)
  {
    hide Bounded, LiteralsPrice, LiteralStep, Rising;
    ThreeOn(c.t, c.cur, q - c.cur, c.last + TRAILING_LITERALS, c.cur, llen);
    if q == c.cur + 3 {
      NotHigher(c, llen, q + 1);
      if !IsMatch(c.u, q + 1) {
        assert StepPriced(c.t, q + 1, c.cur);
        LiteralSteps(Waiting(c.t, q));
      }
    }
  }

  lemma StaysRisingAll(c: Change, llen: nat)
    requires Ready(c, llen)
    ensures Rising(c.u, c.last')
  {
    hide Bounded, Extra, LiteralsPrice, LiteralStep, StepPriced, Slope, Consistent, Sound;
    forall q, p | 0 <= q < p <= c.last' + TRAILING_LITERALS ensures Rises(c.u, q, p, c.last') {
      if p <= c.last' {
        StaysRising(c, llen, q, p);
      } else {
        TrailingStep(c, llen, p - c.last');
        if q < c.last' {
          StaysRising(c, llen, q, c.last');
          SpansSum(c.last' - q, p - c.last');
        } else if q > c.last' {
          TrailingStep(c, llen, q - c.last');
        }
      }
    }
  }

  // A match at cur that covers p is also at most that much dearer than any q between.
  lemma CostNear(c: Change, llen: nat, q: nat, p: nat)
    requires Ready(c, llen) && c.cur < q && q + 5 <= p && InMatch(c, p)
    ensures Cost(c, p) <= Price(c.u, q) + 4 + Extra(p - 1 - q)
  {
    hide Bounded, Extra, LiteralsPrice, LiteralStep, StepPriced, Slope, Spans;
    StaysRising(c, llen, c.cur, q);
    ExtraBounded(p - 1 - q, q - c.cur);
    assert IsMatch(c.u, c.cur + 1) <==> IsMatch(c.t, c.cur + 1);
  }

  lemma StaysBounded(c: Change, llen: nat, q: nat, p: nat)
    requires Ready(c, llen) && c.cur < q && q + 5 <= p <= c.last'
    ensures Near(c.u, q, p) && (c.favorDecSpeed || Nearer(c.u, q, p))
  {
    hide Rising, Extra, LiteralsPrice, LiteralStep, StepPriced, Slope, Consistent, Tail;
    NotHigher(c, llen, p);
    NotHigher(c, llen, q);
    if InMatch(c, p) {
      CostNear(c, llen, q, p);
    } else {
      assert Near(c.t, c.cur, p) && (c.favorDecSpeed || Nearer(c.t, c.cur, p));
      assert Near(c.t, q, p) && (c.favorDecSpeed || Nearer(c.t, q, p));
      ExtraSum(q - c.cur, p - 1 - q);
    }
  }

  // A match found at a place the search does not pass over leaves a sound table.
  lemma MatchKeepsSound(c: Change, llen: nat)
    requires Ready(c, llen)
    ensures Sound(c.u, c.cur + 1, c.last', llen, c.favorDecSpeed)
  {
    hide Rising, Bounded, Gentle, Near, Nearer, Consistent, Tail;
    StaysConsistent(c, llen);
    StaysRisingAll(c, llen);
    var u := c.u;
    forall p | 0 <= p < c.last' + TRAILING_LITERALS ensures Gentle(u, p) {
      StaysGentle(c, llen, p);
    }
    BoundedAll(c, llen);
  }

  lemma BoundedAll(c: Change, llen: nat)
    requires Ready(c, llen)
    ensures Bounded(c.u, c.cur + 1, c.last', c.favorDecSpeed)
  {
    hide Sound, Changed, Near, Nearer;
    var u := c.u;
    forall q, p | c.cur + 1 <= q && q + 5 <= p <= c.last'
      ensures Near(u, q, p) && (c.favorDecSpeed || Nearer(u, q, p))
    {
      StaysBounded(c, llen, q, p);
    }
  }

  // ---------------------------------------------------------------- the first match and the skips

  lemma FirstIsSound(llen: nat, favorDecSpeed: bool)
    ensures Sound(FirstLiterals(Blank(), llen), 0, 0, llen, favorDecSpeed)
    ensures !Dear(FirstLiterals(Blank(), llen), 0, 0)
  {
    hide LiteralsPrice;
    LiteralSteps(llen);
    LiteralSteps(llen + 1);
    LiteralSteps(llen + 2);
    var t := FirstLiterals(Blank(), llen);
    assert forall i :: 0 <= i < 4 ==> t[i] == Set(Cell(LiteralsPrice(llen + i), 0, 1, llen + i));
  }

  lemma PassOver(t: Table, cur: nat, last: nat, llen: nat, favorDecSpeed: bool)
    requires Sound(t, cur, last, llen, favorDecSpeed) && cur < last
    ensures Sound(t, cur + 1, last, llen, favorDecSpeed)
  {
    hide Slope, Rising, Near, Nearer;
    var bound := cur + 1;
    forall p | 1 <= p <= last + TRAILING_LITERALS ensures StepPriced(t, p, bound) {
      assert StepPriced(t, p, cur);
    }
  }

  // The rule by which the search passes over a position.
  predicate Passed(t: Table, cur: nat, fullUpdate: bool) {
    Price(t, cur + 1) <= Price(t, cur) && (!fullUpdate || Price(t, cur + MINMATCH) < Price(t, cur) + 3)
  }

  lemma DearIsPassed(t: Table, cur: nat, last: nat, llen: nat, favorDecSpeed: bool, fullUpdate: bool)
    requires Sound(t, cur, last, llen, favorDecSpeed) && Dear(t, cur, last)
    ensures Passed(t, cur, fullUpdate)
  {
    hide Rising, Bounded, LiteralsPrice;
    ThreeOn(t, cur + 1, 3, last + TRAILING_LITERALS, cur, llen);
    FewLiterals();
  }

  // ---------------------------------------------------------------- paths and what they send

  datatype StepAt = StepAt(pos: nat, mlen: nat, off: nat)

  // The steps the back-pointers describe, from position zero to p.
  ghost function BackPath(t: Table, p: nat): seq<StepAt>
    requires p < |t|
    decreases p
  {
    if p == 0 || t[p].Unset? || t[p].c.mlen == 0 || t[p].c.mlen > p then []
    else
      var from := p - t[p].c.mlen;
      BackPath(t, from) + [StepAt(from, t[p].c.mlen, t[p].c.off)]
  }

  // Where the literals that still wait after a path begin.
  ghost function AnchorAfter(ip: nat, anchor: nat, path: seq<StepAt>): nat {
    if path == [] then anchor
    else
      var step := path[|path| - 1];
      if step.mlen == 1 then AnchorAfter(ip, anchor, path[..|path| - 1]) else ip + step.pos + step.mlen
  }

  // The sequences a path sends: one for each match, with the literals since the one before.
  ghost function Sent(src: seq<byte>, ip: nat, anchor: nat, path: seq<StepAt>): seq<Sequence> {
    if path == [] then []
    else
      var before, step := path[..|path| - 1], path[|path| - 1];
      var from, to := AnchorAfter(ip, anchor, before), ip + step.pos;
      if step.mlen == 1 || !(from <= to <= |src|) then Sent(src, ip, anchor, before)
      else Sent(src, ip, anchor, before) + [Sequence(src[from..to], step.off, step.mlen)]
  }

  lemma {:induction false} SentStep(src: seq<byte>, ip: nat, anchor: nat, path: seq<StepAt>, step: StepAt)
    ensures var from, to := AnchorAfter(ip, anchor, path), ip + step.pos;
            && (step.mlen == 1 ==> Sent(src, ip, anchor, path + [step]) == Sent(src, ip, anchor, path)
                                   && AnchorAfter(ip, anchor, path + [step]) == from)
            && (step.mlen != 1 && from <= to <= |src| ==>
                  && Sent(src, ip, anchor, path + [step])
                     == Sent(src, ip, anchor, path) + [Sequence(src[from..to], step.off, step.mlen)]
                  && AnchorAfter(ip, anchor, path + [step]) == to + step.mlen)
  {
    assert (path + [step])[..|path|] == path;
  }

  // The bytes that a list of sequences takes in a block.
  ghost function SentBytes(seqs: seq<Sequence>): nat {
    if seqs == [] then 0
    else
      var s := seqs[|seqs| - 1];
      SentBytes(seqs[..|seqs| - 1]) + (if s.matchLen >= MINMATCH then |EncodeSequence(s)| else 0)
  }

  lemma {:induction false} EncodedBytes(before: seq<Sequence>, seqs: seq<Sequence>)
    requires ValidSequences(before + seqs)
    ensures ValidSequences(before)
    ensures |EncodeAll(before + seqs)| == |EncodeAll(before)| + SentBytes(seqs)
    decreases |seqs|
  {
    hide EncodeSequence, Expand;
    if seqs == [] {
      assert before + seqs == before;
    } else {
      var init := seqs[..|seqs| - 1];
      assert (before + seqs)[..|before + seqs| - 1] == before + init;
      assert (before + seqs)[|before + seqs| - 1] == seqs[|seqs| - 1];
      EncodedBytes(before, init);
    }
  }

  lemma {:induction false} SendOneMore(seqs: seq<Sequence>, s: Sequence)
    requires s.matchLen >= MINMATCH
    ensures SentBytes(seqs + [s]) == SentBytes(seqs) + SequencePrice(|s.lits|, s.matchLen)
  {
    hide EncodeSequence, SequencePrice;
    PriceIsExact(s);
    assert (seqs + [s])[..|seqs|] == seqs;
  }

  /**
   Prices are exact: at every position the price is the number of bytes that the sequences of the
   path take, plus that of the literals that wait there, and the cell counts those literals right.
   */
  lemma {:induction false} PathBytes(t: Table, src: seq<byte>, ip: nat, p: nat, top: nat, bound: nat, llen: nat)
    requires Consistent(t, top, bound, llen) && p <= top && llen <= ip && ip + p <= |src|
    ensures Waiting(t, p) <= llen + p
    ensures AnchorAfter(ip, ip - llen, BackPath(t, p)) == ip + p - Waiting(t, p)
    ensures SentBytes(Sent(src, ip, ip - llen, BackPath(t, p))) + LiteralsPrice(Waiting(t, p)) == Price(t, p)
    decreases p
  {
    hide LiteralsPrice, SentBytes, Sent, AnchorAfter, SequencePrice, Extra;
    if p == 0 {
      NothingSent(src, ip, ip - llen);
    } else {
      assert StepPriced(t, p, bound);
      var q := p - t[p].c.mlen;
      PathBytes(t, src, ip, q, top, bound, llen);
      SentStep(src, ip, ip - llen, BackPath(t, q), StepAt(q, t[p].c.mlen, t[p].c.off));
      if t[p].c.mlen != 1 {
        FewLiterals();
        SequencePriceParts(Waiting(t, q), t[p].c.mlen);
        SendOneMore(Sent(src, ip, ip - llen, BackPath(t, q)),
                    Sequence(src[ip + q - Waiting(t, q)..ip + q], t[p].c.off, t[p].c.mlen));
      }
    }
  }

  lemma {:induction false} NothingSent(src: seq<byte>, ip: nat, anchor: nat)
    ensures Sent(src, ip, anchor, []) == [] && AnchorAfter(ip, anchor, []) == anchor
    ensures SentBytes([]) == 0
  {
  }
}
