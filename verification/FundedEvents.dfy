/** channel/funder_events.go and the polling loop of channel/funder.go. */
module FundedEvents {
  import opened Bytes
  import opened Text
  import opened Matcher
  import opened EventLog

  datatype FundedEvent = FundedEvent(address: seq<byte>, total: uint64, timestamp: uint64)

  // ---- Parsing ----

  /** The i-th captures of the three patterns; None for a number that does not fit 64 bits. */
  function MakeEvent(who: string, total: string, timestamp: string): Option<FundedEvent> {
    match (ParseUint(timestamp), ParseUint(Strip(total)))
    case (Some(t), Some(n)) => Some(FundedEvent(ExtractBytes(who), n, t))
    case _ => None
  }

  function MakeEvents(whos: seq<string>, totals: seq<string>, stamps: seq<string>): Option<seq<FundedEvent>>
    requires |whos| == |totals| == |stamps|
  {
    if whos == [] then Some([])
    else
      var n := |whos| - 1;
      match (MakeEvents(whos[..n], totals[..n], stamps[..n]), MakeEvent(whos[n], totals[n], stamps[n]))
      case (Some(evs), Some(e)) => Some(evs + [e])
      case _ => None
  }

  /** None stands for an error return. */
  function ParseFunded(input: string): Option<seq<FundedEvent>> {
    var whos := FindAll(PatternOf(Funded, Who), input);
    var totals := FindAll(PatternOf(Funded, Total), input);
    var stamps := FindAll(PatternOf(Funded, Stamp), input);
    if |whos| != |totals| || |whos| != |stamps| then None else MakeEvents(whos, totals, stamps)
  }

  lemma {:induction false} MakeEventsError(whos: seq<string>, totals: seq<string>, stamps: seq<string>, i: nat)
    requires |whos| == |totals| == |stamps| && i <= |whos|
    requires MakeEvents(whos[..i], totals[..i], stamps[..i]) == None
    ensures MakeEvents(whos, totals, stamps) == None
  {
    if i < |whos| {
      var n := |whos| - 1;
      assert whos[..n][..i] == whos[..i] && totals[..n][..i] == totals[..i] && stamps[..n][..i] == stamps[..i];
      MakeEventsError(whos[..n], totals[..n], stamps[..n], i);
    } else {
      assert whos[..i] == whos && totals[..i] == totals && stamps[..i] == stamps;
    }
  }

  lemma MakeEventsStep(whos: seq<string>, totals: seq<string>, stamps: seq<string>, i: nat)
    requires |whos| == |totals| == |stamps| && i < |whos|
    ensures MakeEvents(whos[..i + 1], totals[..i + 1], stamps[..i + 1]) ==
      match (MakeEvents(whos[..i], totals[..i], stamps[..i]), MakeEvent(whos[i], totals[i], stamps[i]))
      case (Some(evs), Some(e)) => Some(evs + [e])
      case _ => None
  {
    assert whos[..i + 1][..i] == whos[..i] && totals[..i + 1][..i] == totals[..i] && stamps[..i + 1][..i] == stamps[..i];
  }

  method ParseEvents(input: string) returns (r: Option<seq<FundedEvent>>)
    ensures r == ParseFunded(input)
  {
    var whos := FindAll(PatternOf(Funded, Who), input);
    var totals := FindAll(PatternOf(Funded, Total), input);
    var stamps := FindAll(PatternOf(Funded, Stamp), input);
    if |whos| != |totals| || |whos| != |stamps| { return None; }
    r := MakeAll(whos, totals, stamps);
  }

  /** The loop of parseEvents. */
  method MakeAll(whos: seq<string>, totals: seq<string>, stamps: seq<string>) returns (r: Option<seq<FundedEvent>>)
    requires |whos| == |totals| == |stamps|
    ensures r == MakeEvents(whos, totals, stamps)
  {
    var events: seq<FundedEvent> := [];
    for i := 0 to |whos|
      invariant MakeEvents(whos[..i], totals[..i], stamps[..i]) == Some(events)
    {
      MakeEventsStep(whos, totals, stamps, i);
      var timestamp := ParseUint(stamps[i]);
      var total := ParseUint(Strip(totals[i]));
      if timestamp == None || total == None {
        MakeEventsError(whos, totals, stamps, i + 1);
        return None;
      }
      events := events + [FundedEvent(ExtractBytes(whos[i]), total.value, timestamp.value)];
    }
    assert whos[..|whos|] == whos && totals[..|totals|] == totals && stamps[..|stamps|] == stamps;
    r := Some(events);
  }

  /** A logged funding whose numbers fit 64 bits. */
  predicate Fits64(e: Funding) {
    e.total < TWO64 && e.timestamp < TWO64
  }

  function EventOf(e: Funding): FundedEvent
    requires Fits64(e)
  {
    FundedEvent(e.who, e.total, e.timestamp)
  }

  lemma PrintedEvent(e: Funding)
    ensures MakeEvent(FundBody(e, Who), FundBody(e, Total), FundBody(e, Stamp))
         == if Fits64(e) then Some(EventOf(e)) else None
  {
    ExtractPrinted(e.who);
    StripGroup(e.total);
    DecValue(e.timestamp);
  }

  predicate AllFit64(evs: seq<Funding>) {
    forall i :: 0 <= i < |evs| ==> Fits64(evs[i])
  }

  function EventsOf(evs: seq<Funding>): (r: seq<FundedEvent>)
    requires AllFit64(evs)
    ensures |r| == |evs|
  {
    seq(|evs|, i requires 0 <= i < |evs| => EventOf(evs[i]))
  }

  lemma {:induction false} FundBodiesAt(w: What, evs: seq<Funding>)
    requires IsFundField(w)
    ensures |FundBodies(w, evs)| == |evs|
    ensures forall i :: 0 <= i < |evs| ==> FundBodies(w, evs)[i] == FundBody(evs[i], w)
  {
    if evs != [] {
      FundBodiesAt(w, evs[1..]);
      assert forall i :: 0 <= i < |evs| - 1 ==> evs[1..][i] == evs[i + 1];
    }
  }

  lemma AllFitStep(evs: seq<Funding>)
    requires evs != []
    ensures var n := |evs| - 1;
            && (AllFit64(evs) <==> AllFit64(evs[..n]) && Fits64(evs[n]))
            && (AllFit64(evs) ==> EventsOf(evs) == EventsOf(evs[..n]) + [EventOf(evs[n])])
  {
    var n := |evs| - 1;
    assert forall i :: 0 <= i < n ==> evs[..n][i] == evs[i];
    assert evs == evs[..n] + [evs[n]];
  }

  lemma {:induction false} MakeEventsAt(whos: seq<string>, totals: seq<string>, stamps: seq<string>, evs: seq<Funding>)
    requires |whos| == |totals| == |stamps| == |evs|
    requires forall i :: 0 <= i < |evs| ==>
      whos[i] == FundBody(evs[i], Who) && totals[i] == FundBody(evs[i], Total) && stamps[i] == FundBody(evs[i], Stamp)
    ensures MakeEvents(whos, totals, stamps)
         == if AllFit64(evs) then Some(EventsOf(evs)) else None
  {
    if evs != [] {
      var n := |evs| - 1;
      MakeEventsAt(whos[..n], totals[..n], stamps[..n], evs[..n]);
      PrintedEvent(evs[n]);
      AllFitStep(evs);
    }
  }

  /** The funding round trip. From any log, mixed with disputes and conclusions, the parser returns
      exactly the fundings in order, with address bytes, total and timestamp; it fails exactly if
      some number does not fit 64 bits. */
  lemma ParsePrintedFundings(items: seq<Item>, tail: string)
    requires Clean(items, tail)
    ensures var evs := FundingsOf(items);
            ParseFunded(LogText(items, tail))
            == if AllFit64(evs) then Some(EventsOf(evs)) else None
  {
    var evs := FundingsOf(items);
    FindFundField(Who, items, tail);
    FindFundField(Total, items, tail);
    FindFundField(Stamp, items, tail);
    FundBodiesAt(Who, evs);
    FundBodiesAt(Total, evs);
    FundBodiesAt(Stamp, evs);
    MakeEventsAt(FundBodies(Who, evs), FundBodies(Total, evs), FundBodies(Stamp, evs), evs);
  }

  // ---- Evaluating one log ----

  /** What `addr` paid according to a log, as a number without a bound. */
  function TotalOf(events: seq<FundedEvent>, addr: seq<byte>): nat {
    if events == [] then 0
    else
      TotalOf(events[..|events| - 1], addr)
      + (if events[|events| - 1].address == addr then events[|events| - 1].total else 0)
  }

  /** Sums up in 64-bit arithmetic. */
  method EvaluateFundedEvents(events: seq<FundedEvent>, funderAddr: seq<byte>, freqAmount: uint64, fundedTotal: uint64)
      returns (funded: bool)
    ensures funded <==> (fundedTotal + TotalOf(events, funderAddr)) % TWO64 >= freqAmount
  {
    var total := fundedTotal;
    for i := 0 to |events|
      invariant total == (fundedTotal + TotalOf(events[..i], funderAddr)) % TWO64
    {
      assert events[..i + 1][..i] == events[..i];
      if events[i].address == funderAddr {
        total := (total + events[i].total) % TWO64;
      }
    }
    assert events[..|events|] == events;
    funded := total >= freqAmount;
  }

  // ---- The polling loop ----

  /** What `addr` paid according to the fundings themselves. */
  function PaidBy(evs: seq<Funding>, addr: seq<byte>): nat {
    if evs == [] then 0
    else PaidBy(evs[..|evs| - 1], addr) + (if evs[|evs| - 1].who == addr then evs[|evs| - 1].total else 0)
  }

  lemma {:induction false} TotalIsPaid(evs: seq<Funding>, addr: seq<byte>)
    requires AllFit64(evs)
    ensures TotalOf(EventsOf(evs), addr) == PaidBy(evs, addr)
  {
    if evs != [] {
      AllFitStep(evs);
      TotalIsPaid(evs[..|evs| - 1], addr);
      assert EventsOf(evs)[..|evs| - 1] == EventsOf(evs[..|evs| - 1]);
    }
  }

  /** One round of the loop: the context was cancelled, the query failed, or it returned a log. */
  datatype Poll = Cancelled | QueryFailed | Log(text: string)

  datatype Answer = Done | TimedOut | BadLog

  /** The log of one poll alone shows enough, modulo 2^64. */
  predicate ShowsFunded(p: Poll, addr: seq<byte>, amount: uint64) {
    p.Log? && ParseFunded(p.text).Some? && TotalOf(ParseFunded(p.text).value, addr) % TWO64 >= amount
  }

  /** A printed log shows a channel funded exactly if all its numbers fit 64 bits and what this address paid
      reaches the amount modulo 2^64. */
  lemma PrintedLogShowsFunded(items: seq<Item>, tail: string, addr: seq<byte>, amount: uint64)
    requires Clean(items, tail)
    ensures ShowsFunded(Log(LogText(items, tail)), addr, amount) <==>
      AllFit64(FundingsOf(items)) && PaidBy(FundingsOf(items), addr) % TWO64 >= amount
  {
    ParsePrintedFundings(items, tail);
    if AllFit64(FundingsOf(items)) {
      TotalIsPaid(FundingsOf(items), addr);
    }
  }

  /** The loop goes on after this poll. */
  predicate Inconclusive(p: Poll, addr: seq<byte>, amount: uint64) {
    p.QueryFailed? || (p.Log? && ParseFunded(p.text).Some? && !ShowsFunded(p, addr, amount))
  }

  /** The loop gets to poll number i. */
  ghost predicate Reaches(poll: nat -> Poll, i: nat, addr: seq<byte>, amount: uint64) {
    forall j: nat :: j < i ==> Inconclusive(poll(j), addr, amount)
  }

  /** Some poll within the limit shows the balance paid on its own, and none before it was cancelled
      or unreadable. */
  ghost predicate PollsShow(poll: nat -> Poll, maxIters: nat, addr: seq<byte>, amount: uint64) {
    exists i: nat :: i < maxIters && ShowsFunded(poll(i), addr, amount) && Reaches(poll, i, addr, amount)
  }

  /** One evaluated log. */
  method EvaluateLog(text: string, addr: seq<byte>, amount: uint64) returns (r: Option<bool>)
    ensures r == if ParseFunded(text) == None then None else Some(ShowsFunded(Log(text), addr, amount))
  {
    var parsed := ParseEvents(text);
    if parsed == None { return None; }
    var funded := EvaluateFundedEvents(parsed.value, addr, amount, 0);
    r := Some(funded);
  }

  /** Returns nil exactly when some poll within the limit shows enough on its own and none before it
      was cancelled or unreadable. Totals of different polls are never added up. */
  method QueryFundingState(poll: nat -> Poll, maxIters: nat, addr: seq<byte>, amount: uint64) returns (r: Answer, polls: nat)
    ensures polls <= maxIters
    ensures r == Done <==> PollsShow(poll, maxIters, addr, amount)
    ensures r == Done ==> polls > 0 && ShowsFunded(poll(polls - 1), addr, amount)
    ensures r == BadLog ==> polls > 0 && poll(polls - 1).Log? && ParseFunded(poll(polls - 1).text) == None
    ensures forall j :: 0 <= j < polls && poll(j).Log? && ParseFunded(poll(j).text) == None ==> j == polls - 1 && r == BadLog
    ensures forall j :: 0 <= j < polls && poll(j).Cancelled? ==> j == polls - 1 && r == TimedOut
    ensures r == TimedOut ==> polls == maxIters || (polls > 0 && poll(polls - 1).Cancelled?)
  {
    polls := 0;
    for i := 0 to maxIters
      invariant polls == i && Reaches(poll, i, addr, amount)
    {
      polls := i + 1;
      match poll(i)
      case Cancelled => return TimedOut, polls;
      case QueryFailed =>
      case Log(text) =>
        var funded := EvaluateLog(text, addr, amount);
        if funded == None { return BadLog, polls; }
        if funded.value { return Done, polls; }
    }
    r := TimedOut;
  }

  lemma {:induction false} TotalConcat(a: seq<FundedEvent>, b: seq<FundedEvent>, addr: seq<byte>)
    ensures TotalOf(a + b, addr) == TotalOf(a, addr) + TotalOf(b, addr)
  {
    if b == [] {
      assert a + b == a;
    } else {
      var n := |b| - 1;
      TotalConcat(a, b[..n], addr);
      assert (a + b)[..|a + b| - 1] == a + b[..n];
    }
  }

  lemma NoOverflow(x: nat)
    requires x < TWO64
    ensures x % TWO64 == x
  {
  }

  /** A payment counts for its own address and for no other. */
  lemma OnlyOwnPaymentsCount(a: seq<FundedEvent>, f: FundedEvent, addr: seq<byte>)
    ensures TotalOf([], addr) == 0
    ensures TotalOf(a + [f], addr) == TotalOf(a, addr) + if f.address == addr then f.total else 0
  {
    assert (a + [f])[..|a|] == a;
  }

  /** A log that shows the channel funded keeps doing so as events are appended, while the 64-bit sum
      does not overflow. */
  lemma StaysFunded(a: seq<FundedEvent>, b: seq<FundedEvent>, addr: seq<byte>, amount: uint64)
    requires TotalOf(a, addr) % TWO64 >= amount && TotalOf(a + b, addr) < TWO64
    ensures TotalOf(a + b, addr) % TWO64 >= amount
    ensures TotalOf(a, addr) >= amount
  {
    TotalConcat(a, b, addr);
    NoOverflow(TotalOf(a, addr));
    NoOverflow(TotalOf(a + b, addr));
  }

  /** One more payment leaves a funded channel funded exactly if the 64-bit sum does not overflow, or
      still reaches the amount after it has. */
  lemma OnePaymentKeepsFunded(a: seq<FundedEvent>, f: FundedEvent, addr: seq<byte>, amount: uint64)
    requires TotalOf(a, addr) % TWO64 >= amount && f.address == addr
    ensures var r := TotalOf(a, addr) % TWO64;
            TotalOf(a + [f], addr) % TWO64 >= amount <==> r + f.total < TWO64 || r + f.total - TWO64 >= amount
  {
    TotalConcat(a, [f], addr);
    assert [f][..0] == [];
    AddWraps(TotalOf(a, addr), f.total);
  }

  lemma AddWraps(x: nat, y: uint64)
    ensures (x + y) % TWO64 == if x % TWO64 + y < TWO64 then x % TWO64 + y else x % TWO64 + y - TWO64
  {
    var q, r := x / TWO64, x % TWO64;
    assert x == q * TWO64 + r;
    if r + y < TWO64 {
      ModIs(x + y, q, r + y);
    } else {
      ModIs(x + y, q + 1, r + y - TWO64);
    }
  }

  lemma ModIs(x: nat, q: nat, r: nat)
    requires x == q * TWO64 + r && r < TWO64
    ensures x % TWO64 == r
  {
  }

  /** Without that bound it fails: one more payment can make a funded channel look unfunded. */
  lemma OverflowLooksUnfunded(addr: seq<byte>, amount: uint64)
    requires 0 < amount
    ensures var e := FundedEvent(addr, amount, 0);
            var f := FundedEvent(addr, TWO64 - amount, 1);
            TotalOf([e], addr) % TWO64 >= amount && TotalOf([e, f], addr) % TWO64 < amount
  {
    var e := FundedEvent(addr, amount, 0);
    var f := FundedEvent(addr, TWO64 - amount, 1);
    assert [e][..0] == [] && [e, f][..1] == [e];
    assert TotalOf([e], addr) == amount;
    assert TotalOf([e, f], addr) == TWO64;
  }
}
