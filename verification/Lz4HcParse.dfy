/**
 The parse that the optimal parser of LZ4 HC makes, on values: what each turn of its main loop sends,
 what that costs, and where the next turn begins.
 */
module Lz4HcParse {
  import opened Bytes
  import opened Lz4Format
  import opened Lz4Writer
  import opened Lz4HcPrices
  import opened Lz4HcSearch

  // ---------------------------------------------------------------- one round

  // The table after the first match: the search may begin.
  lemma FirstIsSearching(x: Round, first: HcMatch)
    requires RoundOk(x) && GoodMatch(x.src, x.ip, first.off, first.len) && x.ip + MFLIMIT <= |x.src|
    requires first.len < LZ4_OPT_NUM
    ensures MINMATCH <= first.len && AllSet(FirstLiterals(Blank(), x.llen), TRAILING_LITERALS)
    ensures Searching(x, AfterMatch(FirstLiterals(Blank(), x.llen), 0, 0, first.off, first.len, x.favorDecSpeed), 1,
                      first.len)
  {
    hide Sound, MatchesAt, LiteralsPrice, Dear, Changed, AfterMatch;
    var t := FirstLiterals(Blank(), x.llen);
    FirstIsSound(x.llen, x.favorDecSpeed);
    SoundSets(t, 0, 0, x.llen, x.favorDecSpeed);
    FirstMatch(t, x.llen, first, x.favorDecSpeed);
    AfterMatchChanges(t, 0, 0, first.off, first.len, x.favorDecSpeed, x.llen);
    MatchKeepsSound(ChangeBy(t, 0, 0, first.off, first.len, x.favorDecSpeed), x.llen);
    FirstSteps(x);
    MatchKeepsSteps(t, x.src, x.ip, 0, 0, first.off, first.len, x.favorDecSpeed);
    AfterMatchLength(t, 0, 0, first.off, first.len, x.favorDecSpeed);
  }

  lemma FirstSteps(x: Round)
    ensures StepsOk(FirstLiterals(Blank(), x.llen), x.src, x.ip, TRAILING_LITERALS)
  {
    hide LiteralsPrice;
  }

  // The search of a round that starts from a first match.
  ghost function SearchFrom(x: Round, first: HcMatch, call: nat): Found
    requires RoundOk(x) && GoodMatch(x.src, x.ip, first.off, first.len) && x.ip + MFLIMIT <= |x.src|
    requires first.len < LZ4_OPT_NUM
  {
    FirstIsSearching(x, first);
    Explore(x, AfterMatch(FirstLiterals(Blank(), x.llen), 0, 0, first.off, first.len, x.favorDecSpeed), 1,
            first.len, call)
  }

  // The path a search selects.
  ghost function Selected(r: Found): seq<StepAt>
    requires r.s.cur < |r.t|
  {
    BackPath(r.t, r.s.cur) + [StepAt(r.s.cur, r.s.mlen, r.s.off)]
  }

  // A match that is encoded at once ends beyond the last one recorded: those are no longer than the
  // sufficient length, and start earlier.
  lemma {:induction false} ExploreReaches(x: Round, t: Table, cur: nat, last: nat, call: nat)
    requires Searching(x, t, cur, last) && last <= cur - 1 + x.sufficientLen
    ensures var r := Explore(x, t, cur, last, call);
            last <= r.s.cur + r.s.mlen && (r.s.cur + r.s.mlen == last ==> r.s.last == last)
    decreases LZ4_OPT_NUM - cur
  {
    hide Sound, StepsOk, AfterMatch, LastAfter, WithLiterals, MatchesAt, SelectionOk, Extra, Price, Passed;
    SearchingSets(x, t, cur, last);
    if cur >= last || x.ip + cur + MFLIMIT > |x.src| {
      BestIsOk(x, t, cur, last);
    } else if Passed(t, cur, x.fullUpdate) {
      PassKeepsSearching(x, t, cur, last);
      ExploreReaches(x, t, cur + 1, last, call);
    } else {
      var found := Probe(x, cur, last, call);
      FoundIsGood(x.src, x.finder, call, x.ip + cur, MinLen(x, cur, last), x.favorDecSpeed);
      if found.len == 0 {
        PassKeepsSearching(x, t, cur, last);
        ExploreReaches(x, t, cur + 1, last, call + 1);
      } else if !AtOnce(x, cur, found) {
        MatchKeepsSearching(x, t, cur, last, found);
        AfterMatchLength(t, cur, last, found.off, found.len, x.favorDecSpeed);
        ExploreReaches(x, AfterMatch(t, cur, last, found.off, found.len, x.favorDecSpeed), cur + 1,
                       LastAfter(t, cur, last, found.len, x.favorDecSpeed), call + 1);
      }
    }
  }

  lemma FirstPrice(x: Round, first: HcMatch)
    requires MINMATCH <= first.len < LZ4_OPT_NUM && AllSet(FirstLiterals(Blank(), x.llen), TRAILING_LITERALS)
    ensures Price(AfterMatch(FirstLiterals(Blank(), x.llen), 0, 0, first.off, first.len, x.favorDecSpeed), first.len)
         == SequencePrice(x.llen, first.len)
  {
    hide LiteralsPrice, SequencePrice;
    FirstMatch(FirstLiterals(Blank(), x.llen), x.llen, first, x.favorDecSpeed);
  }

  lemma {:induction false} SelectedCosts(x: Round, t: Table, cur: nat, last: nat, call: nat)
    requires Searching(x, t, cur, last)
    ensures var r := Explore(x, t, cur, last, call); Price(r.t, r.s.cur) >= 0
  {
    hide Explore, Slope, Rising, Bounded, StepsOk, MatchesAt, StepPriced, Sent, SentBytes, LiteralsPrice;
    ExploreFinds(x, t, cur, last, call);
    var r := Explore(x, t, cur, last, call);
    PathBytes(r.t, x.src, x.ip, r.s.cur, r.last + TRAILING_LITERALS, r.cur, x.llen);
  }

  /**
   What a search selects takes as many bytes as its price says, goes at least as far as the first match,
   and takes no more bytes than that match if it goes no further.
   */
  lemma SearchSelects(x: Round, first: HcMatch, call: nat)
    requires RoundOk(x) && GoodMatch(x.src, x.ip, first.off, first.len) && x.ip + MFLIMIT <= |x.src|
    requires first.len <= x.sufficientLen
    ensures first.len < LZ4_OPT_NUM && MINMATCH <= first.len
    ensures var r := SearchFrom(x, first, call);
            && r.s.cur < |r.t| && MINMATCH <= r.s.mlen && Price(r.t, r.s.cur) >= 0
            && SentBytes(Sent(x.src, x.ip, x.ip - x.llen, Selected(r))) == Price(r.t, r.s.cur) + 3 + Extra(r.s.mlen)
            && first.len <= r.s.cur + r.s.mlen && x.ip + r.s.cur + r.s.mlen + LASTLITERALS <= |x.src|
            && (r.s.cur + r.s.mlen == first.len ==>
                  SentBytes(Sent(x.src, x.ip, x.ip - x.llen, Selected(r))) <= SequencePrice(x.llen, first.len))
  {
    hide Explore, Searching, Sent, SentBytes, BackPath, AfterMatch, SequencePrice, MatchesAt, Price, Extra, StepsOk,
         StepOk, FinderSound, LiteralsPrice;
    MatchBounds(x.src, x.ip, first.off, first.len);
    FirstIsSearching(x, first);
    var t := AfterMatch(FirstLiterals(Blank(), x.llen), 0, 0, first.off, first.len, x.favorDecSpeed);
    ExploreFinds(x, t, 1, first.len, call);
    SelectedBytes(x, t, 1, first.len, call);
    ExploreReaches(x, t, 1, first.len, call);
    ExploreLowers(x, t, 1, first.len, call, first.len);
    FirstPrice(x, first);
    SelectedCosts(x, t, 1, first.len, call);
  }

  lemma MatchBounds(src: seq<byte>, ip: nat, off: nat, len: nat)
    requires GoodMatch(src, ip, off, len)
    ensures MINMATCH <= len && ip + len + LASTLITERALS <= |src| && 1 <= off <= ip && off <= DISTANCE_MAX
    ensures MatchesAt(src, ip - off, ip, len)
  {
  }

  // ---------------------------------------------------------------- the turns of the main loop

  datatype Parser = Parser(src: seq<byte>, finder: MatchFinder, sufficientLen: nat, fullUpdate: bool,
                           favorDecSpeed: bool)

  ghost predicate ParserOk(w: Parser) {
    FinderSound(w.src, w.finder) && w.sufficientLen < LZ4_OPT_NUM
  }

  // The parser of one block: a target length beyond the table is cut down.
  function ParserFor(src: seq<byte>, finder: MatchFinder, targetLength: nat, fullUpdate: bool, favorDecSpeed: bool)
    : Parser
  {
    Parser(src, finder, if targetLength >= LZ4_OPT_NUM then LZ4_OPT_NUM - 1 else targetLength, fullUpdate,
           favorDecSpeed)
  }

  // Where the main loop stands: the number of searches so far, the position, and where the literals
  // that still wait begin.
  datatype Turn = Turn(call: nat, ip: nat, anchor: nat)

  predicate InBlock(w: Parser, a: Turn) {
    a.anchor <= a.ip && a.ip + MFLIMIT <= |w.src|
  }

  function First(w: Parser, a: Turn): HcMatch {
    FindLongerMatch(w.finder, a.call, a.ip, MINMATCH - 1, w.favorDecSpeed)
  }

  function RoundAt(w: Parser, a: Turn): Round
    requires a.anchor <= a.ip
  {
    Round(w.src, a.ip, a.ip - a.anchor, w.finder, w.sufficientLen, w.fullUpdate, w.favorDecSpeed)
  }

  lemma FirstIsGood(w: Parser, a: Turn)
    requires ParserOk(w) && InBlock(w, a) && First(w, a).len != 0
    ensures var first := First(w, a); GoodMatch(w.src, a.ip, first.off, first.len) && MINMATCH <= first.len
    ensures a.ip + First(w, a).len + LASTLITERALS <= |w.src| && RoundOk(RoundAt(w, a))
  {
    hide FinderSound, MatchesAt;
    FoundIsGood(w.src, w.finder, a.call, a.ip, MINMATCH - 1, w.favorDecSpeed);
  }

  // What one turn sends, and where the next one stands.
  datatype Outcome = Outcome(seqs: seq<Sequence>, next: Turn)

  // Nothing found: on to the next position. A match above the sufficient length is sent as it is. Any
  // other starts a round, whose selected path is sent.
  ghost function Outcomes(w: Parser, a: Turn): (o: Outcome)
    requires ParserOk(w) && InBlock(w, a)
  {
    hide FinderSound, GoodMatch, MatchesAt, FindLongerMatch;
    var first := First(w, a);
    if first.len == 0 then Outcome([], Turn(a.call + 1, a.ip + 1, a.anchor))
    else
      FirstIsGood(w, a);
      if first.len > w.sufficientLen then
        Outcome([Sequence(w.src[a.anchor..a.ip], first.off, first.len)],
                Turn(a.call + 1, a.ip + first.len, a.ip + first.len))
      else
        SearchSelects(RoundAt(w, a), first, a.call + 1);
        var r := SearchFrom(RoundAt(w, a), first, a.call + 1);
        Outcome(Sent(w.src, a.ip, a.anchor, Selected(r)),
                Turn(r.call, a.ip + r.s.cur + r.s.mlen, a.ip + r.s.cur + r.s.mlen))
  }

  /**
   Only positions for which the finder had no match are passed over without sending anything. A turn
   with a match sends at least as much as that match covers, and where it covers no more it takes no
   more bytes than that match alone.
   */
  lemma TurnTakes(w: Parser, a: Turn)
    requires ParserOk(w) && InBlock(w, a)
    ensures var first, o := First(w, a), Outcomes(w, a);
            && (first.len == 0 ==> o.seqs == [] && o.next == Turn(a.call + 1, a.ip + 1, a.anchor))
            && (first.len != 0 ==>
                  && MINMATCH <= first.len && a.ip + first.len <= o.next.ip == o.next.anchor
                  && o.next.ip + LASTLITERALS <= |w.src| && 0 < SentBytes(o.seqs)
                  && (o.next.ip == a.ip + first.len ==>
                        SentBytes(o.seqs) <= SequencePrice(a.ip - a.anchor, first.len)))
  {
    hide Sent, SentBytes, Selected, SearchFrom, FinderSound, GoodMatch, FindLongerMatch, SequencePrice;
    var first := First(w, a);
    if first.len != 0 {
      FirstIsGood(w, a);
      if first.len > w.sufficientLen {
        OneSent(Sequence(w.src[a.anchor..a.ip], first.off, first.len));
      } else {
        SearchSelects(RoundAt(w, a), first, a.call + 1);
      }
    }
  }

  lemma OneSent(s: Sequence)
    requires s.matchLen >= MINMATCH
    ensures SentBytes([s]) == SequencePrice(|s.lits|, s.matchLen) > 0
  {
    hide SequencePrice;
    SendOneMore([], s);
    assert [] + [s] == [s];
    SequencePriceParts(|s.lits|, s.matchLen);
  }

  // The sequences of all turns from one on.
  ghost function Parse(w: Parser, a: Turn): seq<Sequence>
    requires ParserOk(w)
    decreases |w.src| - a.ip
  {
    hide ParserOk, Outcomes;
    if !InBlock(w, a) then []
    else
      TurnTakes(w, a);
      Outcomes(w, a).seqs + Parse(w, Outcomes(w, a).next)
  }

  // Where the last turn leaves the parser.
  ghost function AfterTurns(w: Parser, a: Turn): Turn
    requires ParserOk(w)
    decreases |w.src| - a.ip
  {
    hide ParserOk, Outcomes;
    if !InBlock(w, a) then a
    else
      TurnTakes(w, a);
      AfterTurns(w, Outcomes(w, a).next)
  }

  const START := Turn(0, 0, 0)

  // After these sequences the parse goes on from a turn.
  ghost predicate OnTrack(w: Parser, seqs: seq<Sequence>, a: Turn)
    requires ParserOk(w)
  {
    Parse(w, START) == seqs + Parse(w, a) && AfterTurns(w, START) == AfterTurns(w, a)
  }

  lemma TrackStarts(w: Parser)
    requires ParserOk(w)
    ensures OnTrack(w, [], START)
  {
    assert [] + Parse(w, START) == Parse(w, START);
  }

  // One more turn: a position is passed over,
  lemma TrackSkips(w: Parser, seqs: seq<Sequence>, a: Turn)
    requires ParserOk(w) && InBlock(w, a) && First(w, a).len == 0 && OnTrack(w, seqs, a)
    ensures OnTrack(w, seqs, Turn(a.call + 1, a.ip + 1, a.anchor))
  {
    hide FinderSound, Outcomes;
    TurnTakes(w, a);
    assert [] + Parse(w, Turn(a.call + 1, a.ip + 1, a.anchor)) == Parse(w, Turn(a.call + 1, a.ip + 1, a.anchor));
  }

  // a match is sent as it is,
  lemma TrackSends(w: Parser, seqs: seq<Sequence>, a: Turn)
    requires ParserOk(w) && InBlock(w, a) && First(w, a).len > w.sufficientLen && OnTrack(w, seqs, a)
    ensures var first := First(w, a);
            OnTrack(w, seqs + [Sequence(w.src[a.anchor..a.ip], first.off, first.len)],
                    Turn(a.call + 1, a.ip + first.len, a.ip + first.len))
  {
    hide FinderSound, FindLongerMatch, Sent, Selected, SearchFrom;
    TurnTakes(w, a);
    var o := Outcomes(w, a);
    assert seqs + (o.seqs + Parse(w, o.next)) == seqs + o.seqs + Parse(w, o.next);
  }

  // or a round is made.
  lemma TrackSelects(w: Parser, seqs: seq<Sequence>, a: Turn)
    requires ParserOk(w) && InBlock(w, a) && 0 < First(w, a).len <= w.sufficientLen
    ensures var first := First(w, a);
            && GoodMatch(w.src, a.ip, first.off, first.len) && RoundOk(RoundAt(w, a))
            && var r := SearchFrom(RoundAt(w, a), first, a.call + 1);
               var end := a.ip + r.s.cur + r.s.mlen;
               && r.s.cur < |r.t|
               && (OnTrack(w, seqs, a) ==>
                     OnTrack(w, seqs + Sent(w.src, a.ip, a.anchor, Selected(r)), Turn(r.call, end, end)))
  {
    hide FinderSound, FindLongerMatch, GoodMatch, Sent, Selected, SearchFrom;
    FirstIsGood(w, a);
    SearchSelects(RoundAt(w, a), First(w, a), a.call + 1);
    TurnTakes(w, a);
    var o := Outcomes(w, a);
    assert seqs + (o.seqs + Parse(w, o.next)) == seqs + o.seqs + Parse(w, o.next);
  }

  lemma {:induction false} FrontOfTrack(w: Parser, seqs: seq<Sequence>, a: Turn, front: seq<Sequence>)
    requires ParserOk(w) && OnTrack(w, seqs, a) && front <= seqs
    ensures front <= Parse(w, START)
  {
  }

  lemma {:induction false} TrackEnds(w: Parser, seqs: seq<Sequence>, a: Turn)
    requires ParserOk(w) && OnTrack(w, seqs, a) && !InBlock(w, a)
    ensures seqs == Parse(w, START) && a == AfterTurns(w, START)
  {
  }

  // ---------------------------------------------------------------- what a parse costs

  // The bytes of one turn: none, those of one sequence, or the price of the selected path.
  ghost function TurnBytes(w: Parser, a: Turn): int
    requires ParserOk(w) && InBlock(w, a)
  {
    hide FinderSound, GoodMatch, MatchesAt, FindLongerMatch, SequencePrice, Price;
    var first := First(w, a);
    if first.len == 0 then 0
    else
      FirstIsGood(w, a);
      if first.len > w.sufficientLen then SequencePrice(a.ip - a.anchor, first.len)
      else
        var r := SearchFrom(RoundAt(w, a), first, a.call + 1);
        Price(r.t, r.s.cur) + 3 + Extra(r.s.mlen)
  }

  ghost function ParseBytes(w: Parser, a: Turn): int
    requires ParserOk(w)
    decreases |w.src| - a.ip
  {
    hide ParserOk, Outcomes, TurnBytes;
    if !InBlock(w, a) then 0
    else
      TurnTakes(w, a);
      TurnBytes(w, a) + ParseBytes(w, Outcomes(w, a).next)
  }

  lemma TurnCosts(w: Parser, a: Turn)
    requires ParserOk(w) && InBlock(w, a)
    ensures SentBytes(Outcomes(w, a).seqs) == TurnBytes(w, a)
  {
    hide Sent, SentBytes, Selected, SearchFrom, FinderSound, GoodMatch, FindLongerMatch, SequencePrice, Price;
    var first := First(w, a);
    NoBytes();
    if first.len != 0 {
      FirstIsGood(w, a);
      if first.len > w.sufficientLen {
        OneSent(Sequence(w.src[a.anchor..a.ip], first.off, first.len));
      } else {
        SearchSelects(RoundAt(w, a), first, a.call + 1);
      }
    }
  }

  lemma NoBytes()
    ensures SentBytes([]) == 0
  {
  }

  lemma {:induction false} SentAdds(a: seq<Sequence>, b: seq<Sequence>)
    ensures SentBytes(a + b) == SentBytes(a) + SentBytes(b)
    decreases |b|
  {
    hide EncodeSequence;
    if b == [] {
      assert a + b == a;
    } else {
      assert (a + b)[..|a + b| - 1] == a + b[..|b| - 1];
      SentAdds(a, b[..|b| - 1]);
    }
  }

  // A parse takes the bytes of its turns.
  lemma {:induction false} ParseCosts(w: Parser, a: Turn)
    requires ParserOk(w)
    ensures SentBytes(Parse(w, a)) == ParseBytes(w, a)
    decreases |w.src| - a.ip
  {
    hide ParserOk, Outcomes, TurnBytes, SentBytes;
    NoBytes();
    if InBlock(w, a) {
      TurnTakes(w, a);
      TurnCosts(w, a);
      ParseCosts(w, Outcomes(w, a).next);
      SentAdds(Outcomes(w, a).seqs, Parse(w, Outcomes(w, a).next));
    }
  }

  // A finder that sees, from the second byte, a repetition up to the last five bytes.
  ghost predicate SeesRun(src: seq<byte>, finder: MatchFinder, favorDecSpeed: bool) {
    !favorDecSpeed && |src| >= MFLIMIT + 1 && finder(1, 1, MINMATCH - 1).len == |src| - LASTLITERALS - 1
  }

  // One literal and one match, or something that takes no more, lead to the last five literals.
  lemma {:induction false} RunBytes(w: Parser)
    requires ParserOk(w)
    ensures SeesRun(w.src, w.finder, w.favorDecSpeed) ==>
              && ParseBytes(w, START) <= SequencePrice(1, |w.src| - LASTLITERALS - 1)
              && AfterTurns(w, START).anchor == |w.src| - LASTLITERALS
  {
    hide SentBytes, SequencePrice, Outcomes, TurnBytes, FinderSound;
    if SeesRun(w.src, w.finder, w.favorDecSpeed) {
      var second := Turn(1, 1, 0);
      NothingAtStart(w);
      TurnTakes(w, START);
      TurnCosts(w, START);
      NoBytes();
      assert ParseBytes(w, START) == ParseBytes(w, second) && AfterTurns(w, START) == AfterTurns(w, second);
      TurnTakes(w, second);
      TurnCosts(w, second);
      var third := Outcomes(w, second).next;
      assert ParseBytes(w, third) == 0 && AfterTurns(w, third) == third;
    }
  }

  lemma NothingAtStart(w: Parser)
    requires ParserOk(w)
    ensures First(w, START).len == 0
  {
    if First(w, START).len != 0 {
      FoundIsGood(w.src, w.finder, 0, 0, MINMATCH - 1, w.favorDecSpeed);
    }
  }
}
