/**
 The search of the optimal parser of LZ4 HC: it fills the price table of one round in place, one
 position after the other, and selects the step from which the path is read backwards. The match
 finder is any function that, when it claims a match, is right.
 */
module Lz4HcSearch {
  import opened Bytes
  import opened Lz4Format
  import opened Lz4Writer
  import opened Lz4HcPrices

  // ---------------------------------------------------------------- match finder

  datatype HcMatch = HcMatch(off: nat, len: nat)

  // The answer to the call-th search, at position ip, for a match longer than minLen.
  type MatchFinder = (nat, nat, nat) -> HcMatch

  ghost predicate GoodMatch(src: seq<byte>, ip: nat, off: nat, len: nat) {
    && MINMATCH <= len && ip + len + LASTLITERALS <= |src|
    && 1 <= off <= DISTANCE_MAX && off <= ip
    && MatchesAt(src, ip - off, ip, len)
  }

  ghost predicate FinderSound(src: seq<byte>, finder: MatchFinder) {
    forall call, ip, minLen :: finder(call, ip, minLen).len > minLen ==>
      GoodMatch(src, ip, finder(call, ip, minLen).off, finder(call, ip, minLen).len)
  }

  // LZ4HC_FindLongerMatch: length zero means none.
  function FindLongerMatch(finder: MatchFinder, call: nat, ip: nat, minLen: nat, favorDecSpeed: bool): HcMatch {
    var m := finder(call, ip, minLen);
    if m.len <= minLen then HcMatch(0, 0)
    else if favorDecSpeed && 18 < m.len <= 36 then HcMatch(m.off, 18)
    else m
  }

  lemma FoundIsGood(src: seq<byte>, finder: MatchFinder, call: nat, ip: nat, minLen: nat, favorDecSpeed: bool)
    requires FinderSound(src, finder)
    ensures var m := FindLongerMatch(finder, call, ip, minLen, favorDecSpeed);
            m.len != 0 ==> GoodMatch(src, ip, m.off, m.len)
  {
    var m := finder(call, ip, minLen);
  }

  // ---------------------------------------------------------------- legal steps

  // A step of mlen bytes from a position: a literal, or a match that may legally start there.
  ghost predicate StepOk(src: seq<byte>, pos: nat, mlen: nat, off: nat) {
    mlen == 1 || (GoodMatch(src, pos, off, mlen) && pos + MFLIMIT <= |src|)
  }

  ghost predicate CellOk(src: seq<byte>, ip: nat, c: Cell, p: nat) {
    1 <= c.mlen <= p && StepOk(src, ip + p - c.mlen, c.mlen, c.off)
  }

  ghost predicate StepsOk(t: Table, src: seq<byte>, ip: nat, top: nat) {
    && AllSet(t, top) && t[0].c.mlen == 1
    && forall p :: 1 <= p <= top ==> CellOk(src, ip, t[p].c, p)
  }

  lemma ShorterIsGood(src: seq<byte>, ip: nat, off: nat, len: nat, shorter: nat)
    requires GoodMatch(src, ip, off, len) && MINMATCH <= shorter <= len
    ensures GoodMatch(src, ip, off, shorter)
  {
  }

  lemma MatchKeepsSteps(t: Table, src: seq<byte>, ip: nat, cur: nat, last: nat, off: nat, len: nat, favorDecSpeed: bool)
    requires StepsOk(t, src, ip, last + TRAILING_LITERALS) && cur <= last
    requires GoodMatch(src, ip + cur, off, len) && ip + cur + MFLIMIT <= |src|
    requires cur + len + TRAILING_LITERALS < |t|
    ensures MINMATCH <= len
    ensures StepsOk(AfterMatch(t, cur, last, off, len, favorDecSpeed), src, ip,
                    LastAfter(t, cur, last, len, favorDecSpeed) + TRAILING_LITERALS)
  {
    hide MatchPrice, MatchLitlen, AfterMatch, MatchesAt, CellOk;
    var u, last' := AfterMatch(t, cur, last, off, len, favorDecSpeed), LastAfter(t, cur, last, len, favorDecSpeed);
    AfterMatchAt(t, cur, last, off, len, favorDecSpeed, 0);
    forall p | 0 <= p <= last' + TRAILING_LITERALS
      ensures u[p].Set? && (p > 0 ==> CellOk(src, ip, u[p].c, p))
    {
      CellAfterMatch(t, src, ip, cur, last, off, len, favorDecSpeed, p);
    }
  }

  lemma CellAfterMatch(t: Table, src: seq<byte>, ip: nat, cur: nat, last: nat, off: nat, len: nat,
                       favorDecSpeed: bool, p: nat)
    requires StepsOk(t, src, ip, last + TRAILING_LITERALS) && cur <= last
    requires GoodMatch(src, ip + cur, off, len) && ip + cur + MFLIMIT <= |src|
    requires cur + len + TRAILING_LITERALS < |t| && MINMATCH <= len
    requires p <= LastAfter(t, cur, last, len, favorDecSpeed) + TRAILING_LITERALS
    ensures p < |AfterMatch(t, cur, last, off, len, favorDecSpeed)|
    ensures var u := AfterMatch(t, cur, last, off, len, favorDecSpeed);
            u[p].Set? && (p > 0 ==> CellOk(src, ip, u[p].c, p))
  {
    hide MatchPrice, MatchLitlen, AfterMatch, GoodMatch;
    AfterMatchAt(t, cur, last, off, len, favorDecSpeed, p);
    if cur + MINMATCH <= p <= cur + len {
      ShorterIsGood(src, ip + cur, off, len, p - cur);
    }
  }

  // ---------------------------------------------------------------- what the search does

  // One round: the source, the position ip after llen literals, and the search's options.
  datatype Round = Round(src: seq<byte>, ip: nat, llen: nat, finder: MatchFinder, sufficientLen: nat,
                         fullUpdate: bool, favorDecSpeed: bool)

  // Where the backward walk starts: a match from cur to beyond last.
  datatype Selection = Selection(cur: nat, last: nat, mlen: nat, off: nat)

  datatype Found = Found(t: Table, cur: nat, last: nat, s: Selection, call: nat)

  ghost predicate RoundOk(x: Round) {
    FinderSound(x.src, x.finder) && x.sufficientLen < LZ4_OPT_NUM && x.llen <= x.ip
  }

  ghost predicate Searching(x: Round, t: Table, cur: nat, last: nat) {
    && RoundOk(x) && |t| == LZ4_OPT_NUM + TRAILING_LITERALS
    && 1 <= cur <= last < LZ4_OPT_NUM && x.ip + last + LASTLITERALS <= |x.src|
    && Sound(t, cur, last, x.llen, x.favorDecSpeed)
    && StepsOk(t, x.src, x.ip, last + TRAILING_LITERALS)
  }

  lemma SearchingSets(x: Round, t: Table, cur: nat, last: nat)
    requires Searching(x, t, cur, last)
    ensures AllSet(t, last + TRAILING_LITERALS) && |t| == LZ4_OPT_NUM + TRAILING_LITERALS
    ensures 1 <= cur <= last < LZ4_OPT_NUM && RoundOk(x) && x.ip + last + LASTLITERALS <= |x.src|
    ensures WithLiterals(t, cur) == t
  {
    hide Sound, StepPriced, WithLiterals;
    LiteralsNeverPay(t, cur, last, x.llen, x.favorDecSpeed);
  }

  // How long a match must be to be of interest at cur: longer than this.
  function MinLen(x: Round, cur: nat, last: nat): nat
    requires cur <= last
  {
    if x.fullUpdate then MINMATCH - 1 else last - cur
  }

  // The match looked for at cur.
  function Probe(x: Round, cur: nat, last: nat, call: nat): HcMatch
    requires cur <= last
  {
    FindLongerMatch(x.finder, call, x.ip + cur, MinLen(x, cur, last), x.favorDecSpeed)
  }

  predicate AtOnce(x: Round, cur: nat, found: HcMatch) {
    found.len > x.sufficientLen || found.len + cur >= LZ4_OPT_NUM
  }

  lemma PassKeepsSearching(x: Round, t: Table, cur: nat, last: nat)
    requires Searching(x, t, cur, last) && cur < last
    ensures Searching(x, t, cur + 1, last)
  {
    hide Sound, StepsOk;
    PassOver(t, cur, last, x.llen, x.favorDecSpeed);
  }

  // A match found where the search does not pass over.
  lemma MatchKeepsSearching(x: Round, t: Table, cur: nat, last: nat, found: HcMatch)
    requires Searching(x, t, cur, last) && cur < last && !Passed(t, cur, x.fullUpdate)
    requires GoodMatch(x.src, x.ip + cur, found.off, found.len) && x.ip + cur + MFLIMIT <= |x.src| &&
             !AtOnce(x, cur, found)
    ensures MINMATCH <= found.len && AllSet(t, last + TRAILING_LITERALS)
    ensures Searching(x, AfterMatch(t, cur, last, found.off, found.len, x.favorDecSpeed), cur + 1,
                      LastAfter(t, cur, last, found.len, x.favorDecSpeed))
  {
    hide StepsOk, Dear, Passed, Changed, AfterMatch, LastAfter, MatchesAt;
    if Dear(t, cur, last) {
      DearIsPassed(t, cur, last, x.llen, x.favorDecSpeed, x.fullUpdate);
    }
    AfterMatchChanges(t, cur, last, found.off, found.len, x.favorDecSpeed, x.llen);
    MatchKeepsSound(ChangeBy(t, cur, last, found.off, found.len, x.favorDecSpeed), x.llen);
    MatchKeepsSteps(t, x.src, x.ip, cur, last, found.off, found.len, x.favorDecSpeed);
    AfterMatchLength(t, cur, last, found.off, found.len, x.favorDecSpeed);
  }

  lemma AfterMatchLength(t: Table, cur: nat, last: nat, off: nat, len: nat, favorDecSpeed: bool)
    requires AllSet(t, last + TRAILING_LITERALS) && cur <= last && MINMATCH <= len &&
             cur + len + TRAILING_LITERALS < |t|
    ensures |AfterMatch(t, cur, last, off, len, favorDecSpeed)| == |t|
    ensures last <= LastAfter(t, cur, last, len, favorDecSpeed) <= (if last < cur + len then cur + len else last)
  {
    hide MatchPrice, MatchLitlen;
  }

  // The "check further positions" loop and the choice after it.
  ghost function Explore(x: Round, t: Table, cur: nat, last: nat, call: nat): Found
    requires Searching(x, t, cur, last)
    decreases LZ4_OPT_NUM - cur
  {
    hide Sound, StepsOk, GoodMatch, MatchesAt;
    SearchingSets(x, t, cur, last);
    if cur >= last || x.ip + cur + MFLIMIT > |x.src| then
      Found(t, cur, last, BestSelection(t, last), call)
    else if Passed(t, cur, x.fullUpdate) then
      PassKeepsSearching(x, t, cur, last);
      Explore(x, t, cur + 1, last, call)
    else
      var found := Probe(x, cur, last, call);
      FoundIsGood(x.src, x.finder, call, x.ip + cur, MinLen(x, cur, last), x.favorDecSpeed);
      if found.len == 0 then
        PassKeepsSearching(x, t, cur, last);
        Explore(x, t, cur + 1, last, call + 1)
      else if AtOnce(x, cur, found) then
        Found(t, cur, last, Selection(cur, cur + 1, found.len, found.off), call + 1)
      else
        MatchKeepsSearching(x, t, cur, last, found);
        Explore(x, AfterMatch(WithLiterals(t, cur), cur, last, found.off, found.len, x.favorDecSpeed), cur + 1,
                LastAfter(WithLiterals(t, cur), cur, last, found.len, x.favorDecSpeed), call + 1)
  }

  // The last recorded match.
  function BestSelection(t: Table, last: nat): Selection
    requires last < |t| && t[last].Set?
  {
    var c := t[last].c;
    Selection(if c.mlen <= last then last - c.mlen else 0, last, c.mlen, c.off)
  }

  // ---------------------------------------------------------------- what the search finds

  ghost predicate SelectionOk(t: Table, src: seq<byte>, ip: nat, s: Selection) {
    && StepsOk(t, src, ip, s.cur) && s.cur < LZ4_OPT_NUM
    && MINMATCH <= s.mlen && StepOk(src, ip + s.cur, s.mlen, s.off)
    && s.cur < s.last <= s.cur + s.mlen && ip + s.cur + s.mlen + LASTLITERALS <= |src|
  }

  lemma FewerSteps(t: Table, src: seq<byte>, ip: nat, top: nat, fewer: nat)
    requires StepsOk(t, src, ip, top) && fewer <= top
    ensures StepsOk(t, src, ip, fewer)
  {
  }

  lemma BestIsOk(x: Round, t: Table, cur: nat, last: nat)
    requires Searching(x, t, cur, last)
    ensures t[last].Set? && SelectionOk(t, x.src, x.ip, BestSelection(t, last))
    ensures var s := BestSelection(t, last);
            s.last == last == s.cur + s.mlen && Price(t, last) == Price(t, s.cur) + 3 + Extra(s.mlen)
  {
    hide Rising, Bounded, Slope, MatchesAt, GoodMatch;
    assert StepPriced(t, last, cur) && CellOk(x.src, x.ip, t[last].c, last);
    FewerSteps(t, x.src, x.ip, last + TRAILING_LITERALS, last - t[last].c.mlen);
  }

  // The search always ends with a selection from which the back-pointers lead to position 0 by legal
  // steps, in a table whose invariants hold.
  lemma {:induction false} ExploreFinds(x: Round, t: Table, cur: nat, last: nat, call: nat)
    requires Searching(x, t, cur, last)
    ensures var r := Explore(x, t, cur, last, call);
            && Searching(x, r.t, r.cur, r.last) && cur <= r.cur && last <= r.last
            && SelectionOk(r.t, x.src, x.ip, r.s) && r.s.cur <= r.last
            && (r.s.last == r.s.cur + r.s.mlen ==>
                  r.s.last == r.last && Price(r.t, r.last) == Price(r.t, r.s.cur) + 3 + Extra(r.s.mlen))
    decreases LZ4_OPT_NUM - cur
  {
    hide Sound, StepsOk, AfterMatch, LastAfter, WithLiterals, MatchesAt, SelectionOk, GoodMatch, Extra, Price;
    SearchingSets(x, t, cur, last);
    if cur >= last || x.ip + cur + MFLIMIT > |x.src| {
      BestIsOk(x, t, cur, last);
    } else if Passed(t, cur, x.fullUpdate) {
      PassKeepsSearching(x, t, cur, last);
      ExploreFinds(x, t, cur + 1, last, call);
    } else {
      var found := Probe(x, cur, last, call);
      FoundIsGood(x.src, x.finder, call, x.ip + cur, MinLen(x, cur, last), x.favorDecSpeed);
      if found.len == 0 {
        PassKeepsSearching(x, t, cur, last);
        ExploreFinds(x, t, cur + 1, last, call + 1);
      } else if AtOnce(x, cur, found) {
        AtOnceIsOk(x, t, cur, last, found);
      } else {
        MatchKeepsSearching(x, t, cur, last, found);
        AfterMatchLength(t, cur, last, found.off, found.len, x.favorDecSpeed);
        ExploreFinds(x, AfterMatch(t, cur, last, found.off, found.len, x.favorDecSpeed), cur + 1,
                     LastAfter(t, cur, last, found.len, x.favorDecSpeed), call + 1);
      }
    }
  }

  lemma AtOnceIsOk(x: Round, t: Table, cur: nat, last: nat, found: HcMatch)
    requires Searching(x, t, cur, last) && cur < last && x.ip + cur + MFLIMIT <= |x.src|
    requires GoodMatch(x.src, x.ip + cur, found.off, found.len)
    ensures SelectionOk(t, x.src, x.ip, Selection(cur, cur + 1, found.len, found.off)) && MINMATCH <= found.len
  {
    hide Sound, MatchesAt;
    FewerSteps(t, x.src, x.ip, last + TRAILING_LITERALS, cur);
  }

  /**
   The price of what is selected is its size: the sequences of the path to the selected match and of
   that match itself take exactly as many bytes as its price says.
   */
  lemma {:induction false} SelectedBytes(x: Round, t: Table, cur: nat, last: nat, call: nat)
    requires Searching(x, t, cur, last)
    ensures var r := Explore(x, t, cur, last, call);
            && r.s.cur < |r.t|
            && SentBytes(Sent(x.src, x.ip, x.ip - x.llen,
                              BackPath(r.t, r.s.cur) + [StepAt(r.s.cur, r.s.mlen, r.s.off)]))
               == Price(r.t, r.s.cur) + 3 + Extra(r.s.mlen)
    ensures var r := Explore(x, t, cur, last, call);
            r.s.last == r.s.cur + r.s.mlen ==> Price(r.t, r.last) == Price(r.t, r.s.cur) + 3 + Extra(r.s.mlen)
  {
    hide Explore, Slope, Rising, Bounded, StepsOk, MatchesAt, StepPriced, Sent, SentBytes, SequencePrice, LiteralsPrice;
    ExploreFinds(x, t, cur, last, call);
    var r := Explore(x, t, cur, last, call);
    var q := r.s.cur;
    var path, step := BackPath(r.t, q), StepAt(q, r.s.mlen, r.s.off);
    PathBytes(r.t, x.src, x.ip, q, r.last + TRAILING_LITERALS, r.cur, x.llen);
    SentStep(x.src, x.ip, x.ip - x.llen, path, step);
    SequencePriceParts(Waiting(r.t, q), r.s.mlen);
    SendOneMore(Sent(x.src, x.ip, x.ip - x.llen, path),
                Sequence(x.src[x.ip + q - Waiting(r.t, q)..x.ip + q], r.s.off, r.s.mlen));
  }

  // A match found at c that was worked into the table: up to the position reached, nothing costs more
  // than the path through that match.
  ghost predicate NoBetter(x: Round, t: Table, c: nat, call: nat, minLen: nat, reach: nat) {
    var m := FindLongerMatch(x.finder, call, x.ip + c, minLen, x.favorDecSpeed);
    m.len == 0 ||
    (c + m.len <= reach + TRAILING_LITERALS &&
     forall p :: c + MINMATCH <= p <= c + m.len && p <= reach ==> Price(t, p) <= Price(t, c) + 3 + Extra(p - c))
  }

  // The table, the last match and the number of calls when the search arrives at position c, or
  // where it ends before.
  datatype Arrival = Arrival(t: Table, last: nat, call: nat)

  ghost function StateAt(x: Round, t: Table, cur: nat, last: nat, call: nat, c: nat): Arrival
    requires Searching(x, t, cur, last)
    decreases LZ4_OPT_NUM - cur
  {
    hide Sound, StepsOk, GoodMatch, MatchesAt;
    SearchingSets(x, t, cur, last);
    if c <= cur || cur >= last || x.ip + cur + MFLIMIT > |x.src| then Arrival(t, last, call)
    else if Passed(t, cur, x.fullUpdate) then
      PassKeepsSearching(x, t, cur, last);
      StateAt(x, t, cur + 1, last, call, c)
    else
      var found := Probe(x, cur, last, call);
      FoundIsGood(x.src, x.finder, call, x.ip + cur, MinLen(x, cur, last), x.favorDecSpeed);
      if found.len == 0 then
        PassKeepsSearching(x, t, cur, last);
        StateAt(x, t, cur + 1, last, call + 1, c)
      else if AtOnce(x, cur, found) then Arrival(t, last, call)
      else
        MatchKeepsSearching(x, t, cur, last, found);
        StateAt(x, AfterMatch(t, cur, last, found.off, found.len, x.favorDecSpeed), cur + 1,
                LastAfter(t, cur, last, found.len, x.favorDecSpeed), call + 1, c)
  }

  // Position c was passed over, and then the position after it costs no more; or the finder was asked
  // there, with the call and the length of that moment, and nothing costs more than the path through
  // its answer, up to the last match that there was when the search left c.
  ghost predicate Examined(x: Round, t: Table, c: nat, at: Arrival, after: Arrival)
    requires c <= at.last
  {
    if Passed(at.t, c, x.fullUpdate) then Price(t, c + 1) <= Price(t, c)
    else NoBetter(x, t, c, at.call, MinLen(x, c, at.last), after.last)
  }

  lemma MatchIsReady(x: Round, t: Table, cur: nat, last: nat, found: HcMatch)
    requires Searching(x, t, cur, last) && cur < last && !Passed(t, cur, x.fullUpdate)
    requires GoodMatch(x.src, x.ip + cur, found.off, found.len) && !AtOnce(x, cur, found)
    ensures MINMATCH <= found.len && AllSet(t, last + TRAILING_LITERALS)
    ensures Ready(ChangeBy(t, cur, last, found.off, found.len, x.favorDecSpeed), x.llen)
  {
    hide StepsOk, Dear, Passed, Changed, MatchesAt;
    if Dear(t, cur, last) {
      DearIsPassed(t, cur, last, x.llen, x.favorDecSpeed, x.fullUpdate);
    }
    AfterMatchChanges(t, cur, last, found.off, found.len, x.favorDecSpeed, x.llen);
  }

  // One match lowers prices only, and leaves what was processed alone.
  lemma MatchLowers(x: Round, t: Table, cur: nat, last: nat, found: HcMatch, p: nat)
    requires Searching(x, t, cur, last) && cur < last && !Passed(t, cur, x.fullUpdate)
    requires GoodMatch(x.src, x.ip + cur, found.off, found.len) && !AtOnce(x, cur, found)
    ensures MINMATCH <= found.len && AllSet(t, last + TRAILING_LITERALS)
    ensures var u := AfterMatch(t, cur, last, found.off, found.len, x.favorDecSpeed);
            var last' := LastAfter(t, cur, last, found.len, x.favorDecSpeed);
            && (p <= last ==> Price(u, p) <= Price(t, p))
            && (p <= cur ==> Price(u, p) == Price(t, p))
            && (cur + MINMATCH <= p <= cur + found.len && p <= last' ==>
                Price(u, p) <= Price(t, cur) + 3 + Extra(p - cur))
            && cur + found.len <= last' + TRAILING_LITERALS
  {
    hide Sound, StepsOk, Passed, GoodMatch, Extra, AfterMatch, LastAfter;
    MatchIsReady(x, t, cur, last, found);
    var c := ChangeBy(t, cur, last, found.off, found.len, x.favorDecSpeed);
    if p <= c.last' {
      NotHigher(c, x.llen, p);
    }
  }

  lemma {:induction false} ExploreLowers(x: Round, t: Table, cur: nat, last: nat, call: nat, p: nat)
    requires Searching(x, t, cur, last) && p <= last
    ensures var r := Explore(x, t, cur, last, call);
            Price(r.t, p) <= Price(t, p) && (p <= cur ==> Price(r.t, p) == Price(t, p))
    decreases LZ4_OPT_NUM - cur
  {
    hide Sound, StepsOk, AfterMatch, LastAfter, WithLiterals, MatchesAt, Price;
    SearchingSets(x, t, cur, last);
    if cur < last && x.ip + cur + MFLIMIT <= |x.src| {
      var found := Probe(x, cur, last, call);
      FoundIsGood(x.src, x.finder, call, x.ip + cur, MinLen(x, cur, last), x.favorDecSpeed);
      if Passed(t, cur, x.fullUpdate) || found.len == 0 {
        PassKeepsSearching(x, t, cur, last);
        ExploreLowers(x, t, cur + 1, last, if Passed(t, cur, x.fullUpdate) then call else call + 1, p);
      } else if !AtOnce(x, cur, found) {
        MatchKeepsSearching(x, t, cur, last, found);
        AfterMatchLength(t, cur, last, found.off, found.len, x.favorDecSpeed);
        MatchLowers(x, t, cur, last, found, p);
        ExploreLowers(x, AfterMatch(t, cur, last, found.off, found.len, x.favorDecSpeed), cur + 1,
                      LastAfter(t, cur, last, found.len, x.favorDecSpeed), call + 1, p);
      }
    }
  }

  /**
   Every position the search went through was examined, in terms of the final prices: with the call it
   had come to there, and up to the last match there was after it.
   */
  lemma {:induction false} ExploreExamines(x: Round, t: Table, cur: nat, last: nat, call: nat, c: nat)
    requires Searching(x, t, cur, last)
    ensures cur <= c < Explore(x, t, cur, last, call).cur ==>
              var at := StateAt(x, t, cur, last, call, c);
              && c < at.last && Price(at.t, c) == Price(Explore(x, t, cur, last, call).t, c)
              && Examined(x, Explore(x, t, cur, last, call).t, c, at, StateAt(x, t, cur, last, call, c + 1))
    decreases LZ4_OPT_NUM - cur
  {
    hide Sound, StepsOk, AfterMatch, LastAfter, WithLiterals, MatchesAt, Price, Extra, NoBetter, GoodMatch, MinLen;
    SearchingSets(x, t, cur, last);
    var found := Probe(x, cur, last, call);
    FoundIsGood(x.src, x.finder, call, x.ip + cur, MinLen(x, cur, last), x.favorDecSpeed);
    if c < cur || c >= Explore(x, t, cur, last, call).cur { return; }
    if c == cur {
      ExaminesHere(x, t, cur, last, call);
    } else if Passed(t, cur, x.fullUpdate) || found.len == 0 {
      PassKeepsSearching(x, t, cur, last);
      ExploreExamines(x, t, cur + 1, last, if Passed(t, cur, x.fullUpdate) then call else call + 1, c);
    } else {
      MatchKeepsSearching(x, t, cur, last, found);
      AfterMatchLength(t, cur, last, found.off, found.len, x.favorDecSpeed);
      ExploreExamines(x, AfterMatch(t, cur, last, found.off, found.len, x.favorDecSpeed), cur + 1,
                      LastAfter(t, cur, last, found.len, x.favorDecSpeed), call + 1, c);
    }
  }

  lemma {:induction false} ExaminesHere(x: Round, t: Table, cur: nat, last: nat, call: nat)
    requires Searching(x, t, cur, last) && cur < Explore(x, t, cur, last, call).cur
    ensures cur < last && Price(t, cur) == Price(Explore(x, t, cur, last, call).t, cur)
    ensures Examined(x, Explore(x, t, cur, last, call).t, cur, Arrival(t, last, call),
                     StateAt(x, t, cur, last, call, cur + 1))
  {
    hide Sound, StepsOk, AfterMatch, LastAfter, WithLiterals, MatchesAt, Price, Extra, NoBetter, GoodMatch, MinLen;
    SearchingSets(x, t, cur, last);
    var found := Probe(x, cur, last, call);
    FoundIsGood(x.src, x.finder, call, x.ip + cur, MinLen(x, cur, last), x.favorDecSpeed);
    if Passed(t, cur, x.fullUpdate) || found.len == 0 {
      PassKeepsSearching(x, t, cur, last);
      var call' := if Passed(t, cur, x.fullUpdate) then call else call + 1;
      ExploreLowers(x, t, cur + 1, last, call', cur);
      ExploreLowers(x, t, cur + 1, last, call', cur + 1);
      PassedIsLower(t, Explore(x, t, cur, last, call).t, cur, x.fullUpdate);
      if found.len == 0 {
        NothingFound(x, Explore(x, t, cur, last, call).t, cur, call, MinLen(x, cur, last), last);
      }
    } else {
      MatchExamines(x, t, cur, last, call, found);
    }
  }

  lemma PassedIsLower(t: Table, final: Table, c: nat, fullUpdate: bool)
    requires Price(final, c + 1) <= Price(t, c + 1) && Price(final, c) == Price(t, c)
    ensures Passed(t, c, fullUpdate) ==> Price(final, c + 1) <= Price(final, c)
  {
  }

  lemma NothingFound(x: Round, t: Table, c: nat, call: nat, minLen: nat, reach: nat)
    requires FindLongerMatch(x.finder, call, x.ip + c, minLen, x.favorDecSpeed).len == 0
    ensures NoBetter(x, t, c, call, minLen, reach)
  {
  }

  lemma {:induction false} MatchExamines(x: Round, t: Table, cur: nat, last: nat, call: nat, found: HcMatch)
    requires Searching(x, t, cur, last) && cur < last && !Passed(t, cur, x.fullUpdate)
    requires x.ip + cur + MFLIMIT <= |x.src| && GoodMatch(x.src, x.ip + cur, found.off, found.len)
    requires found == Probe(x, cur, last, call) && found.len != 0 && !AtOnce(x, cur, found)
    ensures Price(t, cur) == Price(Explore(x, t, cur, last, call).t, cur)
    ensures NoBetter(x, Explore(x, t, cur, last, call).t, cur, call, MinLen(x, cur, last),
                     StateAt(x, t, cur, last, call, cur + 1).last)
  {
    hide Sound, StepsOk, AfterMatch, LastAfter, WithLiterals, MatchesAt, Price, Extra, GoodMatch, Passed, Searching,
         MinLen;
    SearchingSets(x, t, cur, last);
    MatchKeepsSearching(x, t, cur, last, found);
    var u := AfterMatch(t, cur, last, found.off, found.len, x.favorDecSpeed);
    var last' := LastAfter(t, cur, last, found.len, x.favorDecSpeed);
    SearchingSets(x, u, cur + 1, last');
    var r := Explore(x, t, cur, last, call);
    assert r == Explore(x, u, cur + 1, last', call + 1);
    assert StateAt(x, t, cur, last, call, cur + 1) == StateAt(x, u, cur + 1, last', call + 1, cur + 1);
    MatchLowers(x, t, cur, last, found, cur);
    ExploreLowers(x, u, cur + 1, last', call + 1, cur);
    forall p | cur + MINMATCH <= p <= cur + found.len && p <= last'
      ensures Price(r.t, p) <= Price(r.t, cur) + 3 + Extra(p - cur)
    {
      MatchLowers(x, t, cur, last, found, p);
      ExploreLowers(x, u, cur + 1, last', call + 1, p);
    }
  }

  // ---------------------------------------------------------------- the loops, in place

  // Three literals after the last match, so that a search may look a little ahead.
  method AddTrailingLiterals(opt: array<Slot>, last: nat)
    requires last + TRAILING_LITERALS < opt.Length && opt[last].Set?
    modifies opt
    ensures opt[..] == Trailing(old(opt[..]), last)
  {
    hide LiteralsPrice;
    ghost var was := opt[..];
    var addLit := 1;
    while addLit <= TRAILING_LITERALS
      invariant 1 <= addLit <= TRAILING_LITERALS + 1
      invariant forall i :: 0 <= i < opt.Length ==>
                  opt[i] == if last < i < last + addLit then Trailing(was, last)[i] else was[i]
    {
      opt[last + addLit] := Set(Cell(opt[last].c.price + LiteralsPrice(addLit), 0, 1, addLit));
      addLit := addLit + 1;
    }
  }

  // The cells for the first literals and for every length of the first match.
  method InitialPrices(opt: array<Slot>, llen: nat, first: HcMatch, ghost favorDecSpeed: bool)
    requires opt[..] == Blank() && MINMATCH <= first.len < LZ4_OPT_NUM
    modifies opt
    ensures AllSet(FirstLiterals(Blank(), llen), TRAILING_LITERALS)
    ensures opt[..] == AfterMatch(FirstLiterals(Blank(), llen), 0, 0, first.off, first.len, favorDecSpeed)
  {
    hide LiteralsPrice, SequencePrice;
    ghost var blank := opt[..];
    assert forall i :: 0 <= i < opt.Length ==> opt[i] == blank[i];
    var rPos := 0;
    while rPos < MINMATCH
      invariant 0 <= rPos <= MINMATCH
      invariant forall i :: 0 <= i < opt.Length ==>
                  opt[i] == if i < rPos then FirstLiterals(blank, llen)[i] else blank[i]
    {
      opt[rPos] := Set(Cell(LiteralsPrice(llen + rPos), 0, 1, llen + rPos));
      rPos := rPos + 1;
    }
    ghost var t := opt[..];
    assert t == FirstLiterals(blank, llen);
    var mlen := MINMATCH;
    while mlen <= first.len
      invariant MINMATCH <= mlen <= first.len + 1
      invariant forall i :: 0 <= i < opt.Length ==>
                  opt[i] == if MINMATCH <= i < mlen then Set(Cell(SequencePrice(llen, i), first.off, i, llen)) else t[i]
    {
      opt[mlen] := Set(Cell(SequencePrice(llen, mlen), first.off, mlen, llen));
      mlen := mlen + 1;
    }
    FirstMatch(t, llen, first, favorDecSpeed);
    assert opt[..] == WithMatch(t, 0, 0, first.off, first.len, favorDecSpeed);
    AddTrailingLiterals(opt, first.len);
  }

  // The first match, worked into the first literals, is recorded at all its lengths.
  lemma FirstMatch(t: Table, llen: nat, first: HcMatch, favorDecSpeed: bool)
    requires t == FirstLiterals(Blank(), llen) && MINMATCH <= first.len < LZ4_OPT_NUM
    ensures AllSet(t, TRAILING_LITERALS) && LastAfter(t, 0, 0, first.len, favorDecSpeed) == first.len
    ensures |WithMatch(t, 0, 0, first.off, first.len, favorDecSpeed)| == |t|
    ensures forall i :: 0 <= i < |t| ==>
              WithMatch(t, 0, 0, first.off, first.len, favorDecSpeed)[i]
              == if MINMATCH <= i <= first.len then Set(Cell(SequencePrice(llen, i), first.off, i, llen)) else t[i]
  {
    hide LiteralsPrice, SequencePrice;
    assert t[0] == Set(Cell(LiteralsPrice(llen + 0), 0, 1, llen));
  }

  // Literals just before a match found at cur, where they are cheaper than what is recorded.
  method RelaxLiterals(opt: array<Slot>, cur: nat)
    requires AllSet(opt[..], cur + 3)
    modifies opt
    ensures opt[..] == WithLiterals(old(opt[..]), cur)
  {
    hide LiteralsPrice;
    ghost var was := opt[..];
    var baseLitlen := opt[cur].c.litlen;
    var litlen := 1;
    while litlen < MINMATCH
      invariant 1 <= litlen <= MINMATCH
      invariant forall i :: 0 <= i < opt.Length ==>
                  opt[i] == if cur < i < cur + litlen then WithLiterals(was, cur)[i] else was[i]
    {
      var price := opt[cur].c.price - LiteralsPrice(baseLitlen) + LiteralsPrice(baseLitlen + litlen);
      var pos := cur + litlen;
      assert opt[pos] == was[pos] && opt[cur] == was[cur];
      if price < opt[pos].c.price {
        opt[pos] := Set(Cell(price, 0, 1, baseLitlen + litlen));
      }
      litlen := litlen + 1;
    }
  }

  // Every length of a match found at cur, where it is no dearer than what is recorded or nothing is.
  method RelaxMatch(opt: array<Slot>, cur: nat, last0: nat, found: HcMatch, favorDecSpeed: bool) returns (last: nat)
    requires AllSet(opt[..], last0 + TRAILING_LITERALS) && cur <= last0 && MINMATCH <= found.len
    requires cur + found.len < opt.Length
    modifies opt
    ensures opt[..] == WithMatch(old(opt[..]), cur, last0, found.off, found.len, favorDecSpeed)
    ensures last == LastAfter(old(opt[..]), cur, last0, found.len, favorDecSpeed)
  {
    hide LiteralsPrice, SequencePrice;
    ghost var was := opt[..];
    last := last0;
    var ml := MINMATCH;
    while ml <= found.len
      invariant MINMATCH <= ml <= found.len + 1
      invariant ml <= found.len ==> last == last0
      invariant ml == found.len + 1 ==> last == LastAfter(was, cur, last0, found.len, favorDecSpeed)
      invariant forall i :: 0 <= i < opt.Length ==>
                  opt[i] == if i < cur + ml then WithMatch(was, cur, last0, found.off, found.len, favorDecSpeed)[i]
                      else was[i]
    {
      var pos := cur + ml;
      var ll, price;
      assert opt[cur] == was[cur] && opt[pos] == was[pos];
      if opt[cur].c.mlen == 1 {
        ll := opt[cur].c.litlen;
        assert cur > ll ==> opt[cur - ll] == was[cur - ll];
        price := (if cur > ll then opt[cur - ll].c.price else 0) + SequencePrice(ll, ml);
      } else {
        ll := 0;
        price := opt[cur].c.price + SequencePrice(0, ml);
      }
      assert price == MatchPrice(was, cur, ml) && ll == MatchLitlen(was, cur);
      WithMatchAt(was, cur, last0, found, favorDecSpeed, ml);
      if pos > last + TRAILING_LITERALS || price <= opt[pos].c.price - (if favorDecSpeed then 1 else 0) {
        if ml == found.len && last < pos {
          last := pos;
        }
        opt[pos] := Set(Cell(price, found.off, ml, ll));
      }
      ml := ml + 1;
    }
  }

  lemma WithMatchAt(t: Table, cur: nat, last: nat, found: HcMatch, favorDecSpeed: bool, ml: nat)
    requires AllSet(t, last + TRAILING_LITERALS) && cur <= last && MINMATCH <= ml <= found.len && cur + ml < |t|
    ensures WithMatch(t, cur, last, found.off, found.len, favorDecSpeed)[cur + ml]
         == if Taken(t, cur, last, ml, favorDecSpeed) then
             Set(Cell(MatchPrice(t, cur, ml), found.off, ml, MatchLitlen(t, cur)))
            else t[cur + ml]
  {
    hide MatchPrice, MatchLitlen, Taken;
  }

  // Everything that is done with a match found at cur.
  method WorkIn(opt: array<Slot>, x: Round, cur: nat, last: nat, found: HcMatch) returns (last': nat)
    requires Searching(x, opt[..], cur, last) && cur < last && !Passed(opt[..], cur, x.fullUpdate)
    requires GoodMatch(x.src, x.ip + cur, found.off, found.len) && x.ip + cur + MFLIMIT <= |x.src| &&
             !AtOnce(x, cur, found)
    modifies opt
    ensures AllSet(old(opt[..]), last + TRAILING_LITERALS) && MINMATCH <= found.len
    ensures opt[..] == AfterMatch(WithLiterals(old(opt[..]), cur), cur, last, found.off, found.len, x.favorDecSpeed)
    ensures last' == LastAfter(WithLiterals(old(opt[..]), cur), cur, last, found.len, x.favorDecSpeed)
    ensures Searching(x, opt[..], cur + 1, last')
  {
    hide Sound, StepsOk, MatchesAt, Trailing, WithMatch, WithLiterals, LastAfter, GoodMatch;
    ghost var t := opt[..];
    SearchingSets(x, t, cur, last);
    MatchKeepsSearching(x, t, cur, last, found);
    AfterMatchLength(t, cur, last, found.off, found.len, x.favorDecSpeed);
    RelaxLiterals(opt, cur);
    last' := RelaxMatch(opt, cur, last, found, x.favorDecSpeed);
    LastIsSet(t, cur, last, found, x.favorDecSpeed);
    AddTrailingLiterals(opt, last');
  }

  lemma LastIsSet(t: Table, cur: nat, last: nat, found: HcMatch, favorDecSpeed: bool)
    requires AllSet(t, last + TRAILING_LITERALS) && cur <= last && MINMATCH <= found.len && cur + found.len < |t|
    ensures var m, last' := WithMatch(t, cur, last, found.off, found.len, favorDecSpeed),
            LastAfter(t, cur, last, found.len, favorDecSpeed);
            |m| == |t| && last' < |m| && m[last'].Set?
  {
    hide MatchPrice, MatchLitlen;
  }

  // The end of the search, and what each kind of position leads to.
  lemma {:induction false} ExploreEnds(x: Round, t: Table, cur: nat, last: nat, call: nat)
    requires Searching(x, t, cur, last)
    ensures AllSet(t, last + TRAILING_LITERALS)
    ensures cur >= last || x.ip + cur + MFLIMIT > |x.src| ==>
              Explore(x, t, cur, last, call) == Found(t, cur, last, BestSelection(t, last), call)
  {
    hide Sound, StepsOk, BestSelection;
    SearchingSets(x, t, cur, last);
  }

  lemma ExplorePasses(x: Round, t: Table, cur: nat, last: nat, call: nat)
    requires Searching(x, t, cur, last) && cur < last && x.ip + cur + MFLIMIT <= |x.src|
    requires Passed(t, cur, x.fullUpdate) || Probe(x, cur, last, call).len == 0
    ensures Searching(x, t, cur + 1, last)
    ensures Explore(x, t, cur, last, call)
         == Explore(x, t, cur + 1, last, if Passed(t, cur, x.fullUpdate) then call else call + 1)
  {
    hide Sound, StepsOk, Passed, Probe;
    PassKeepsSearching(x, t, cur, last);
  }

  lemma {:induction false} ExploreSelects(x: Round, t: Table, cur: nat, last: nat, call: nat, found: HcMatch)
    requires Searching(x, t, cur, last) && cur < last && x.ip + cur + MFLIMIT <= |x.src| &&
             !Passed(t, cur, x.fullUpdate)
    requires found == Probe(x, cur, last, call) && found.len != 0 && AtOnce(x, cur, found)
    ensures Explore(x, t, cur, last, call)
         == Found(t, cur, last, Selection(cur, cur + 1, found.len, found.off), call + 1)
  {
    hide Sound, StepsOk, Passed, Probe, AtOnce;
  }

  lemma ExploreGoesOn(x: Round, t: Table, cur: nat, last: nat, call: nat, found: HcMatch, u: Table, last': nat)
    requires Searching(x, t, cur, last) && cur < last && x.ip + cur + MFLIMIT <= |x.src| &&
             !Passed(t, cur, x.fullUpdate)
    requires found == Probe(x, cur, last, call) && MINMATCH <= found.len && !AtOnce(x, cur, found)
    requires AllSet(WithLiterals(t, cur), last + TRAILING_LITERALS) &&
             |WithLiterals(t, cur)| == LZ4_OPT_NUM + TRAILING_LITERALS
    requires u == AfterMatch(WithLiterals(t, cur), cur, last, found.off, found.len, x.favorDecSpeed)
    requires last' == LastAfter(WithLiterals(t, cur), cur, last, found.len, x.favorDecSpeed)
    requires Searching(x, u, cur + 1, last')
    ensures Explore(x, t, cur, last, call) == Explore(x, u, cur + 1, last', call + 1)
  {
    hide Sound, StepsOk, Passed, Probe, AtOnce, WithLiterals, AfterMatch, LastAfter;
  }

  // The "check further positions" loop.
  method CheckFurtherPositions(opt: array<Slot>, x: Round, last0: nat, call0: nat) returns (s: Selection, call: nat)
    requires Searching(x, opt[..], 1, last0)
    modifies opt
    ensures var r := Explore(x, old(opt[..]), 1, last0, call0);
            opt[..] == r.t && s == r.s && call == r.call
  {
    hide Explore, Searching, MatchesAt, AfterMatch, WithLiterals, LastAfter, GoodMatch, FinderSound;
    ghost var r := Explore(x, opt[..], 1, last0, call0);
    var cur: nat, last: nat := 1, last0;
    call := call0;
    SearchingSets(x, opt[..], cur, last);
    while cur < last
      invariant Searching(x, opt[..], cur, last) && last < LZ4_OPT_NUM
      invariant r == Explore(x, opt[..], cur, last, call)
      decreases LZ4_OPT_NUM - cur
    {
      ghost var t := opt[..];
      SearchingSets(x, t, cur, last);
      ExploreEnds(x, t, cur, last, call);
      var curPtr := x.ip + cur;
      if curPtr > |x.src| - MFLIMIT {
        break;
      }
      if opt[cur + 1].c.price <= opt[cur].c.price
         && (!x.fullUpdate || opt[cur + MINMATCH].c.price < opt[cur].c.price + 3) {
        ExplorePasses(x, t, cur, last, call);
        cur := cur + 1;
        continue;
      }
      var minLen := if x.fullUpdate then MINMATCH - 1 else last - cur;
      var found := FindLongerMatch(x.finder, call, curPtr, minLen, x.favorDecSpeed);
      FoundIsGood(x.src, x.finder, call, curPtr, minLen, x.favorDecSpeed);
      if found.len == 0 {
        ExplorePasses(x, t, cur, last, call);
        cur, call := cur + 1, call + 1;
        continue;
      }
      if found.len > x.sufficientLen || found.len + cur >= LZ4_OPT_NUM {
        ExploreSelects(x, t, cur, last, call, found);
        return Selection(cur, cur + 1, found.len, found.off), call + 1;
      }
      var last' := WorkIn(opt, x, cur, last, found);
      ExploreGoesOn(x, t, cur, last, call, found, opt[..], last');
      SearchingSets(x, opt[..], cur + 1, last');
      cur, last, call := cur + 1, last', call + 1;
    }
    ExploreEnds(x, opt[..], cur, last, call);
    var c := opt[last].c;
    s := Selection(if c.mlen <= last then last - c.mlen else 0, last, c.mlen, c.off);
  }
}
