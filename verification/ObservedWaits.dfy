/** The waits of the adjudicator on a real subscription: what they observe are events of the log. */
module ObservedWaits {
  import opened Bytes
  import opened Encoding
  import opened Backend
  import opened EventLog
  import opened AdjudicatorEvents
  import opened Subscription
  import opened SubscribedLogs
  import Adjudicator

  /** What the select of a waiting consumer gets from one step of the subscription. */
  function Observed(s: Sys, t: Sys): Adjudicator.Select {
    if !s.consumer.Waiting? then Adjudicator.Nothing
    else if t.consumer.Accepted? then Adjudicator.Received(Some(t.consumer.ev))
    else if t.consumer.GaveUp? then if t.errors < s.errors then Adjudicator.PollerError else Adjudicator.ContextDone
    else if |t.taken| > |s.taken| then Adjudicator.Received(Some(t.taken[|s.taken|]))
    else Adjudicator.Nothing
  }

  function Selects(trace: seq<Sys>, i: nat, j: nat): (r: seq<Adjudicator.Select>)
    requires i <= j < |trace|
    decreases j - i
  {
    if i == j then [] else [Observed(trace[i], trace[i + 1])] + Selects(trace, i + 1, j)
  }

  /** What a wait of the machine has come to. */
  predicate CameTo(s: Sys, kind: Kind, version: uint64, r: Option<Ev>) {
    match r
    case Some(ev) => s.consumer == Accepted(kind, version, ev)
    case None => s.consumer == Waiting(kind, version) || s.consumer == GaveUp
  }

  lemma OthersLeaveTheConsumer(parse: Parser, s: Sys, t: Sys)
    requires PollerStep(parse, s, t) || EnvironmentStep(s, t)
    ensures t.consumer == s.consumer && t.taken == s.taken
  {
  }

  /** The outcomes of one step for a waiting consumer. */
  predicate StepsTo(s: Sys, t: Sys, kind: Kind, version: uint64) {
    match Observed(s, t)
    case Received(Some(ev)) =>
      if Acceptable(kind, version, ev) then t.consumer == Accepted(kind, version, ev) else t.consumer == s.consumer
    case Received(None) => false
    case Nothing => t.consumer == s.consumer
    case _ => t.consumer == GaveUp
  }

  lemma WaitingStep(s: Sys, t: Sys, kind: Kind, version: uint64)
    requires s.consumer == Waiting(kind, version) && (WaitEvent(s, t) || WaitNil(s, t) || WaitEnds(s, t))
    ensures StepsTo(s, t, kind, version)
  {
  }

  lemma WaitStep(parse: Parser, s: Sys, t: Sys, kind: Kind, version: uint64)
    requires Next(parse, s, t) && s.consumer == Waiting(kind, version)
    ensures StepsTo(s, t, kind, version)
  {
    if WaitEvent(s, t) || WaitNil(s, t) || WaitEnds(s, t) {
      WaitingStep(s, t, kind, version);
    } else {
      OthersLeaveTheConsumer(parse, s, t);
    }
  }

  lemma OverStep(parse: Parser, s: Sys, t: Sys)
    requires Next(parse, s, t) && (s.consumer.Accepted? || s.consumer.GaveUp?)
    ensures t.consumer == s.consumer
  {
  }

  lemma {:induction false} OverStaysOver(parse: Parser, trace: seq<Sys>, i: nat, j: nat)
    requires Run(parse, trace) && i <= j < |trace| && (trace[i].consumer.Accepted? || trace[i].consumer.GaveUp?)
    ensures trace[j].consumer == trace[i].consumer
    decreases j - i
  {
    if i < j {
      assert Legal(parse, trace, i);
      OverStep(parse, trace[i], trace[i + 1]);
      OverStaysOver(parse, trace, i + 1, j);
    }
  }

  /** The loop of waitForConcluded and waitForDisputed, run on what a subscription delivers, ends as the
      wait of the machine does, in every interleaving. */
  lemma {:induction false} LoopFollowsMachine(
      parse: Parser, trace: seq<Sys>, i: nat, j: nat, kind: Kind, version: uint64)
    requires Run(parse, trace) && i <= j < |trace| && trace[i].consumer == Waiting(kind, version)
    ensures CameTo(trace[j], kind, version, Adjudicator.Awaited(Selects(trace, i, j), kind, version))
    decreases j - i
  {
    if i < j {
      assert Legal(parse, trace, i);
      WaitStep(parse, trace[i], trace[i + 1], kind, version);
      assert Selects(trace, i, j)[1..] == Selects(trace, i + 1, j);
      if trace[i + 1].consumer == trace[i].consumer {
        LoopFollowsMachine(parse, trace, i + 1, j, kind, version);
      } else {
        OverStaysOver(parse, trace, i + 1, j);
      }
    }
  }

  /** The event is in the first log that was not quiet. */
  ghost predicate FromDecidingLog(polled: seq<string>, e: Ev) {
    exists events :: Decided(ParseAll, polled, events) && e in events
  }

  /** So an event that ends a wait is in the first log that was not quiet, and acceptable. */
  lemma AwaitedIsLogged(trace: seq<Sys>, i: nat, j: nat, kind: Kind, version: uint64)
    requires Run(ParseAll, trace) && i <= j < |trace| && trace[i].consumer == Waiting(kind, version)
    ensures var r := Adjudicator.Awaited(Selects(trace, i, j), kind, version);
            r.Some? ==>
              && Acceptable(kind, version, r.value)
              && FromDecidingLog(trace[j].polled, r.value)
  {
    LoopFollowsMachine(ParseAll, trace, i, j, kind, version);
    if trace[j].consumer.Accepted? {
      WaitAcceptsFromFirstLog(ParseAll, trace, j);
    }
  }

  predicate IsSelected(e: Ev, kind: Kind, items: seq<Item>) {
    Shows(RecordsOf(kind, items)) && e == Ev(kind, ParseOf(RecordsOf(kind, items)).data)
  }

  /** If that log is a printed one, the event is the selected record of the kind that was waited for. */
  lemma AwaitedIsSelected(
      trace: seq<Sys>, i: nat, j: nat, kind: Kind, version: uint64, items: seq<Item>, tail: string, e: Ev)
    requires Run(ParseAll, trace) && i <= j < |trace| && trace[i].consumer == Waiting(kind, version)
    requires Clean(items, tail) && LastIs(trace[j].polled, LogText(items, tail))
    requires Adjudicator.Awaited(Selects(trace, i, j), kind, version) == Some(e)
    ensures IsSelected(e, kind, items)
  {
    AwaitedIsLogged(trace, i, j, kind, version);
    DecidedIsSelected(trace[j].polled, items, tail, e);
  }

  predicate LastIs(polled: seq<string>, text: string) {
    polled != [] && polled[|polled| - 1] == text
  }

  lemma DecidedIsSelected(polled: seq<string>, items: seq<Item>, tail: string, e: Ev)
    requires FromDecidingLog(polled, e)
    requires Clean(items, tail) && LastIs(polled, LogText(items, tail))
    ensures IsSelected(e, e.kind, items)
  {
    FoundIsSelected(items, tail, e);
  }

  /** A conclusion from the first log of the subscription that was not quiet. */
  ghost predicate Logged(s: Sys, ev: Ev) {
    ev.kind == Conclude && FromDecidingLog(s.polled, ev)
  }

  /** Withdraw with its wait on such a subscription: whatever it has observed was in the log, so that for
      a final state the first conclusion it acts on is one the canister has logged. */
  method WithdrawSubscribed(
      c: Adjudicator.Canister, keys: Adjudicator.Verifiers, p: Adjudicator.Party, req: Adjudicator.Request,
      trace: seq<Sys>, i: nat, j: nat)
      returns (r: Adjudicator.Outcome)
    requires |req.tx.balances| > 0
    requires Run(ParseAll, trace) && i <= j < |trace| && trace[i].consumer == Waiting(Conclude, 0)
    modifies c
    ensures |c.trace| >= |old(c.trace)| && c.trace[..|old(c.trace)|] == old(c.trace)
    ensures forall k :: k in c.trace[|old(c.trace)|..] && k.Saw? ==> Logged(trace[j], k.ev)
    ensures var calls := c.trace[|old(c.trace)|..];
            r == Adjudicator.Nil ==> Adjudicator.PaysOutLast(keys, p, req, calls)
    ensures r == Adjudicator.Nil <==>
      Adjudicator.WithdrawalGranted(c.script, |old(c.trace)|, keys, p, req, Selects(trace, i, j))
    ensures Adjudicator.SeesConclusion(Selects(trace, i, j)) <==> trace[j].consumer.Accepted?
  {
    LoopFollowsMachine(ParseAll, trace, i, j, Conclude, 0);
    AwaitedIsLogged(trace, i, j, Conclude, 0);
    r := Adjudicator.Withdraw(c, keys, p, req, Selects(trace, i, j));
  }
}
