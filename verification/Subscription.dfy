/** connector/subscribe.go: one polling goroutine and one consumer around a bounded channel, as a
    state machine whose steps interleave in every way. */
module Subscription {
  import opened Bytes
  import opened EventLog
  import opened AdjudicatorEvents

  const BUFFER_SIZE := 3

  datatype Ev = Ev(kind: Kind, data: EventData)

  /** What parseEventsAll makes of a log: a list of events, an error, or a panic. */
  datatype Snapshot = Found(list: seq<Ev>) | Unreadable | Crashes

  type Parser = string -> Snapshot

  /** A concluded event, if any, comes before a disputed one, if any; there is never more. */
  predicate OneOfEach(l: seq<Ev>) {
    && |l| <= 2
    && (forall i :: 0 <= i < |l| ==> l[i].kind == Conclude || l[i].kind == Dispute)
    && (|l| == 2 ==> l[0].kind == Conclude && l[1].kind == Dispute)
  }

  // ---- States ----

  /** Reporting is blocked in `panicErr <-`, Sending(rest) in `events <-` with `rest` still to send. */
  datatype Poller = Polling | Reporting | Sending(rest: seq<Ev>) | Stopped | Crashed

  /** InNext is in the select of Next; Waiting is in the loop of waitForConcluded or waitForDisputed. */
  datatype Consumer =
    | Idle
    | InNext
    | Waiting(kind: Kind, version: uint64)
    | Accepted(kind: Kind, version: uint64, ev: Ev)
    | GaveUp

  datatype Sys = Sys(
    poller: Poller,
    consumer: Consumer,
    buffer: seq<Ev>,           // the channel `events`
    chanClosed: bool,
    closes: nat,               // how often `events` was closed
    errors: nat,               // in the one-place channel `panicErr`
    cancelled: bool,           // the context
    closer: bool,              // the subscription's own closer
    polled: seq<string>,       // every log that was queried
    sent: seq<Ev>,
    taken: seq<Ev>,            // what the consumer received
    returned: seq<Option<Ev>>, // what Next returned
    failures: nat,             // how many queries failed
    heard: nat                 // how many errors the consumer received
  )

  ghost predicate Init(s: Sys) {
    s == Sys(Polling, Idle, [], false, 0, 0, s.cancelled, false, [], [], [], [], 0, 0)
  }

  /** waitForConcluded takes any conclusion, waitForDisputed a dispute that is not older. */
  predicate Acceptable(kind: Kind, version: uint64, e: Ev) {
    e.kind == kind && (kind == Dispute ==> e.data.version >= version)
  }

  // ---- Steps of the poller ----

  ghost predicate PollCancelled(s: Sys, t: Sys) {
    s.poller == Polling && s.cancelled
    && t == s.(poller := Stopped, chanClosed := true, closes := s.closes + 1)
  }

  predicate OwnEventReady(s: Sys) {
    s.buffer != [] || s.chanClosed
  }

  /** The poller receives from the channel that it fills itself. */
  ghost predicate PollOwnEvent(s: Sys, t: Sys) {
    s.poller == Polling && OwnEventReady(s)
    && t == s.(poller := Stopped, chanClosed := true, closes := s.closes + 1,
               buffer := if s.buffer == [] then [] else s.buffer[1..])
  }

  /** A failed query gives the empty text: the error is reported and polling goes on. */
  ghost predicate PollFails(s: Sys, t: Sys) {
    s.poller == Polling && t == s.(poller := Reporting, failures := s.failures + 1)
  }

  function AfterPoll(parse: Parser, text: string): Poller {
    if text == "" then Polling
    else
      match parse(text)
      case Crashes => Crashed
      case Unreadable => Reporting
      case Found(list) => if list == [] then Polling else Sending(list)
  }

  ghost predicate PollLog(parse: Parser, s: Sys, t: Sys, text: string) {
    s.poller == Polling && t == s.(poller := AfterPoll(parse, text), polled := s.polled + [text])
  }

  ghost predicate ReportError(s: Sys, t: Sys) {
    s.poller == Reporting && s.errors < 1 && t == s.(poller := Polling, errors := s.errors + 1)
  }

  /** Sending on a closed channel panics. */
  ghost predicate SendEvent(s: Sys, t: Sys) {
    s.poller.Sending? && s.poller.rest != []
    && if s.chanClosed then t == s.(poller := Crashed)
       else
         && |s.buffer| < BUFFER_SIZE
         && t == s.(poller := Sending(s.poller.rest[1..]), buffer := s.buffer + [s.poller.rest[0]], sent := s.sent + [s.poller.rest[0]])
  }

  /** The goroutine returns without closing the channel. */
  ghost predicate FinishSending(s: Sys, t: Sys) {
    s.poller == Sending([]) && t == s.(poller := Stopped)
  }

  ghost predicate PollerStep(parse: Parser, s: Sys, t: Sys) {
    || PollCancelled(s, t) || PollOwnEvent(s, t) || PollFails(s, t) || (exists text :: PollLog(parse, s, t, text))
    || ReportError(s, t) || SendEvent(s, t) || FinishSending(s, t)
  }

  // ---- Steps of the consumer and the environment ----

  ghost predicate EnterNext(s: Sys, t: Sys) {
    s.consumer == Idle
    && t == if s.closer then s.(returned := s.returned + [None]) else s.(consumer := InNext)
  }

  ghost predicate NextEvent(s: Sys, t: Sys) {
    s.consumer == InNext && s.buffer != []
    && t == s.(consumer := Idle, closer := true, buffer := s.buffer[1..], taken := s.taken + [s.buffer[0]],
               returned := s.returned + [Some(s.buffer[0])])
  }

  ghost predicate NextNothing(s: Sys, t: Sys) {
    s.consumer == InNext && (s.closer || (s.buffer == [] && s.chanClosed))
    && t == s.(consumer := Idle, returned := s.returned + [None])
  }

  ghost predicate StartWaiting(s: Sys, t: Sys, kind: Kind, version: uint64) {
    s.consumer == Idle && kind != Funded && t == s.(consumer := Waiting(kind, version))
  }

  /** An event that is not acceptable is dropped. */
  ghost predicate WaitEvent(s: Sys, t: Sys) {
    s.consumer.Waiting? && s.buffer != []
    && var e := s.buffer[0];
       var u := s.(buffer := s.buffer[1..], taken := s.taken + [e]);
       t == if Acceptable(s.consumer.kind, s.consumer.version, e)
            then u.(consumer := Accepted(s.consumer.kind, s.consumer.version, e), closer := true)
            else u
  }

  /** A closed and empty channel yields a nil event, on which the loop simply goes on. */
  ghost predicate WaitNil(s: Sys, t: Sys) {
    s.consumer.Waiting? && s.buffer == [] && s.chanClosed && t == s
  }

  ghost predicate WaitEnds(s: Sys, t: Sys) {
    s.consumer.Waiting?
    && (|| (s.cancelled && t == s.(consumer := GaveUp))
        || (s.errors > 0 && t == s.(consumer := GaveUp, errors := s.errors - 1, heard := s.heard + 1)))
  }

  ghost predicate ConsumerStep(s: Sys, t: Sys) {
    || EnterNext(s, t) || NextEvent(s, t) || NextNothing(s, t)
    || (exists kind, version :: StartWaiting(s, t, kind, version))
    || WaitEvent(s, t) || WaitNil(s, t) || WaitEnds(s, t)
  }

  ghost predicate EnvironmentStep(s: Sys, t: Sys) {
    t == s.(cancelled := true) || t == s.(closer := true)
  }

  ghost predicate Next(parse: Parser, s: Sys, t: Sys) {
    PollerStep(parse, s, t) || ConsumerStep(s, t) || EnvironmentStep(s, t)
  }

  ghost predicate Legal(parse: Parser, trace: seq<Sys>, i: int) {
    0 <= i < |trace| - 1 ==> Next(parse, trace[i], trace[i + 1])
  }

  ghost predicate Run(parse: Parser, trace: seq<Sys>) {
    |trace| > 0 && Init(trace[0]) && forall i :: Legal(parse, trace, i)
  }

  // ---- The invariant ----

  /** A log after which the poller polls again. */
  predicate Quiet(parse: Parser, text: string) {
    text == "" || parse(text) == Unreadable || parse(text) == Found([])
  }

  /** The last log queried is the first that was not quiet, and `events` is what it holds. */
  ghost predicate Decided(parse: Parser, polled: seq<string>, events: seq<Ev>) {
    && polled != []
    && (forall i :: 0 <= i < |polled| - 1 ==> Quiet(parse, polled[i]))
    && events != [] && parse(polled[|polled| - 1]) == Found(events)
  }

  ghost predicate AllQuiet(parse: Parser, polled: seq<string>) {
    forall i :: 0 <= i < |polled| ==> Quiet(parse, polled[i])
  }

  ghost predicate PollerInv(parse: Parser, s: Sys) {
    match s.poller
    case Polling => s.sent == [] && !s.chanClosed && AllQuiet(parse, s.polled)
    case Reporting => s.sent == [] && !s.chanClosed && AllQuiet(parse, s.polled)
    case Crashed => s.sent == [] && !s.chanClosed
    case Sending(rest) => !s.chanClosed && Decided(parse, s.polled, s.sent + rest)
    case Stopped => if s.chanClosed then s.sent == [] else Decided(parse, s.polled, s.sent)
  }

  ghost predicate ConsumerInv(s: Sys) {
    && (forall i :: 0 <= i < |s.returned| && s.returned[i].Some? ==>
          && s.closer && s.consumer != InNext && s.returned[i].value in s.taken
          && forall j :: 0 <= j < |s.returned| && j != i ==> s.returned[j].None?)
    && (s.consumer.Accepted? ==>
          && s.closer && s.consumer.ev in s.taken
          && Acceptable(s.consumer.kind, s.consumer.version, s.consumer.ev))
  }

  /** How many of the logs could not be parsed. */
  function Unparsed(parse: Parser, polled: seq<string>): nat {
    if polled == [] then 0
    else
      var last := polled[|polled| - 1];
      Unparsed(parse, polled[..|polled| - 1]) + if last != "" && parse(last) == Unreadable then 1 else 0
  }

  /** Every failure is being reported, waits in the channel, or was heard. */
  ghost predicate ErrorsAddUp(parse: Parser, s: Sys) {
    s.failures + Unparsed(parse, s.polled) == s.errors + s.heard + (if s.poller == Reporting then 1 else 0)
  }

  ghost predicate Inv(parse: Parser, s: Sys) {
    && s.errors <= 1 && ErrorsAddUp(parse, s)
    && s.sent == s.taken + s.buffer
    && s.closes == (if s.chanClosed then 1 else 0)
    && PollerInv(parse, s) && ConsumerInv(s)
  }

  lemma UnparsedStep(parse: Parser, polled: seq<string>, text: string)
    ensures Unparsed(parse, polled + [text])
         == Unparsed(parse, polled) + if text != "" && parse(text) == Unreadable then 1 else 0
  {
    assert (polled + [text])[..|polled|] == polled;
  }

  lemma PollLogKeepsErrors(parse: Parser, s: Sys, t: Sys, text: string)
    requires ErrorsAddUp(parse, s) && PollLog(parse, s, t, text)
    ensures ErrorsAddUp(parse, t)
  {
    UnparsedStep(parse, s.polled, text);
  }

  lemma PollLogKeepsPoller(parse: Parser, s: Sys, t: Sys, text: string)
    requires PollerInv(parse, s) && PollLog(parse, s, t, text)
    ensures PollerInv(parse, t)
  {
    assert t.polled[..|t.polled| - 1] == s.polled;
    if t.poller.Sending? {
      assert s.sent + t.poller.rest == t.poller.rest;
    }
  }

  lemma PollLogKeepsInv(parse: Parser, s: Sys, t: Sys, text: string)
    requires Inv(parse, s) && PollLog(parse, s, t, text)
    ensures Inv(parse, t)
  {
    PollLogKeepsErrors(parse, s, t, text);
    PollLogKeepsPoller(parse, s, t, text);
  }

  lemma SendKeepsInv(parse: Parser, s: Sys, t: Sys)
    requires Inv(parse, s) && SendEvent(s, t)
    ensures Inv(parse, t)
  {
    assert s.sent + s.poller.rest == t.sent + t.poller.rest;
  }

  lemma PollerKeepsInv(parse: Parser, s: Sys, t: Sys)
    requires Inv(parse, s) && PollerStep(parse, s, t)
    ensures Inv(parse, t)
  {
    if text :| PollLog(parse, s, t, text) {
      PollLogKeepsInv(parse, s, t, text);
    } else if SendEvent(s, t) {
      SendKeepsInv(parse, s, t);
    } else if FinishSending(s, t) {
      assert s.sent + [] == s.sent;
    }
  }

  lemma NextEventKeepsInv(parse: Parser, s: Sys, t: Sys)
    requires Inv(parse, s) && NextEvent(s, t)
    ensures Inv(parse, t)
  {
    assert s.taken + s.buffer == t.taken + t.buffer;
  }

  lemma WaitEventKeepsInv(parse: Parser, s: Sys, t: Sys)
    requires Inv(parse, s) && WaitEvent(s, t)
    ensures Inv(parse, t)
  {
    assert s.taken + s.buffer == t.taken + t.buffer;
  }

  /** A call of Next that returns nil. */
  lemma NilKeepsInv(parse: Parser, s: Sys, t: Sys)
    requires Inv(parse, s) && (EnterNext(s, t) || NextNothing(s, t))
    ensures Inv(parse, t)
  {
    assert t.returned == s.returned || t.returned == s.returned + [None];
  }

  lemma WaitWithoutEventKeepsInv(parse: Parser, s: Sys, t: Sys)
    requires Inv(parse, s) && (WaitNil(s, t) || WaitEnds(s, t))
    ensures Inv(parse, t)
  {
  }

  lemma ConsumerKeepsInv(parse: Parser, s: Sys, t: Sys)
    requires Inv(parse, s) && ConsumerStep(s, t)
    ensures Inv(parse, t)
  {
    if NextEvent(s, t) {
      NextEventKeepsInv(parse, s, t);
    } else if WaitEvent(s, t) {
      WaitEventKeepsInv(parse, s, t);
    } else if EnterNext(s, t) || NextNothing(s, t) {
      NilKeepsInv(parse, s, t);
    } else if WaitNil(s, t) || WaitEnds(s, t) {
      WaitWithoutEventKeepsInv(parse, s, t);
    }
  }

  lemma {:induction false} Reachable(parse: Parser, trace: seq<Sys>, i: nat)
    requires Run(parse, trace) && i < |trace|
    ensures Inv(parse, trace[i])
  {
    if i > 0 {
      Reachable(parse, trace, i - 1);
      var s, t := trace[i - 1], trace[i];
      assert Legal(parse, trace, i - 1);
      if PollerStep(parse, s, t) {
        PollerKeepsInv(parse, s, t);
      } else if ConsumerStep(s, t) {
        ConsumerKeepsInv(parse, s, t);
      }
    }
  }

  // ---- Main results ----

  /** Safety of the channel in every interleaving: the poller never waits for room in the buffer,
      never finds its own event to receive, never sends after a close, and never closes twice. It
      sends at most a concluded and then a disputed event. */
  lemma ChannelSafety(parse: Parser, trace: seq<Sys>, i: nat)
    requires forall text: string :: parse(text).Found? ==> OneOfEach(parse(text).list)
    requires Run(parse, trace) && i < |trace|
    ensures var s := trace[i];
            && (s.poller.Sending? ==> !s.chanClosed && (s.poller.rest != [] ==> |s.buffer| < BUFFER_SIZE))
            && (s.poller == Polling ==> !OwnEventReady(s))
            && s.closes <= 1 && OneOfEach(s.sent)
  {
    Reachable(parse, trace, i);
    var s := trace[i];
    var rest := if s.poller.Sending? then s.poller.rest else [];
    if s.poller.Sending? || (s.poller.Stopped? && !s.chanClosed) {
      assert s.sent + [] == s.sent;
      assert Decided(parse, s.polled, s.sent + rest);
      assert parse(s.polled[|s.polled| - 1]) == Found(s.sent + rest);
      FirstOnes(s.sent, rest);
    } else {
      assert s.sent == [];
    }
  }

  lemma FirstOnes(a: seq<Ev>, b: seq<Ev>)
    requires OneOfEach(a + b)
    ensures OneOfEach(a) && |a| + |b| <= 2
  {
    assert forall i :: 0 <= i < |a| ==> a[i] == (a + b)[i];
  }

  /** No failure is lost and none is made up: failed queries and logs that could not be parsed are as many
      as the errors that were heard, that wait in the channel, or that the poller is reporting. Its channel
      holds one error, so that it may wait to report the next one. */
  lemma ErrorsAreReported(parse: Parser, trace: seq<Sys>, i: nat)
    requires Run(parse, trace) && i < |trace|
    ensures var s := trace[i];
            && s.failures + Unparsed(parse, s.polled) == s.heard + s.errors + (if s.poller == Reporting then 1 else 0)
            && s.errors <= 1
  {
    Reachable(parse, trace, i);
  }

  /** Next returns at most one event over the life of the subscription and nil ever after; it comes
      from the first log that was not quiet. */
  lemma NextReturnsOneEvent(parse: Parser, trace: seq<Sys>, i: nat, j: nat)
    requires Run(parse, trace) && i < |trace| && j < |trace[i].returned| && trace[i].returned[j].Some?
    ensures var s := trace[i];
            && (forall k :: 0 <= k < |s.returned| && k != j ==> s.returned[k] == None)
            && exists events :: Decided(parse, s.polled, events) && s.returned[j].value in events
  {
    Reachable(parse, trace, i);
    var s := trace[i];
    var events := if s.poller.Sending? then s.sent + s.poller.rest else s.sent;
    assert s.returned[j].value in s.sent;
    assert Decided(parse, s.polled, events);
  }

  /** A wait succeeds only with an acceptable event of the first log that was not quiet; in
      particular never because the channel was closed. */
  lemma WaitAcceptsFromFirstLog(parse: Parser, trace: seq<Sys>, i: nat)
    requires Run(parse, trace) && i < |trace| && trace[i].consumer.Accepted?
    ensures var s := trace[i];
            && !s.chanClosed
            && Acceptable(s.consumer.kind, s.consumer.version, s.consumer.ev)
            && exists events :: Decided(parse, s.polled, events) && s.consumer.ev in events
  {
    Reachable(parse, trace, i);
    var s := trace[i];
    var events := if s.poller.Sending? then s.sent + s.poller.rest else s.sent;
    assert s.consumer.ev in s.sent;
    assert Decided(parse, s.polled, events);
  }

  ghost predicate StillWaiting(s: Sys, kind: Kind, version: uint64) {
    s.consumer == Waiting(kind, version) || s.consumer == GaveUp
  }

  /** What the consumer can still receive. */
  function Pending(s: Sys): seq<Ev> {
    s.buffer + if s.poller.Sending? then s.poller.rest else []
  }

  /** The poller has read its last log. */
  predicate Decisive(s: Sys) {
    s.poller.Sending? || s.poller.Stopped?
  }

  lemma PollerKeepsPending(parse: Parser, s: Sys, t: Sys)
    requires Inv(parse, s) && PollerStep(parse, s, t) && Decisive(s)
    ensures Decisive(t) && t.consumer == s.consumer && Pending(t) == Pending(s)
  {
    if SendEvent(s, t) {
      assert Pending(s) == s.buffer + ([s.poller.rest[0]] + s.poller.rest[1..]);
    }
  }

  lemma ConsumerShrinksPending(s: Sys, t: Sys)
    requires ConsumerStep(s, t)
    ensures t.poller == s.poller && forall e :: e in Pending(t) ==> e in Pending(s)
  {
    assert t.buffer == s.buffer || (s.buffer != [] && t.buffer == s.buffer[1..]);
  }

  lemma WaitGoesOn(s: Sys, t: Sys, kind: Kind, version: uint64)
    requires ConsumerStep(s, t) && StillWaiting(s, kind, version)
    requires forall e :: e in Pending(s) ==> !Acceptable(kind, version, e)
    ensures StillWaiting(t, kind, version)
  {
    if WaitEvent(s, t) {
      assert s.buffer[0] in Pending(s);
    }
  }

  /** The wait has not succeeded, the poller has read its last log, and nothing that can still
      arrive is acceptable. */
  ghost predicate Hopeless(s: Sys, kind: Kind, version: uint64) {
    && StillWaiting(s, kind, version) && Decisive(s)
    && forall e :: e in Pending(s) ==> !Acceptable(kind, version, e)
  }

  lemma HopelessStep(parse: Parser, s: Sys, t: Sys, kind: Kind, version: uint64)
    requires Inv(parse, s) && Next(parse, s, t) && Hopeless(s, kind, version)
    ensures Hopeless(t, kind, version)
  {
    if PollerStep(parse, s, t) {
      PollerKeepsPending(parse, s, t);
    } else if ConsumerStep(s, t) {
      ConsumerShrinksPending(s, t);
      WaitGoesOn(s, t, kind, version);
    }
  }

  lemma HopelessAlong(parse: Parser, trace: seq<Sys>, i: nat, kind: Kind, version: uint64)
    requires Run(parse, trace) && i + 1 < |trace| && Hopeless(trace[i], kind, version)
    ensures Hopeless(trace[i + 1], kind, version)
  {
    Reachable(parse, trace, i);
    assert Legal(parse, trace, i);
    HopelessStep(parse, trace[i], trace[i + 1], kind, version);
  }

  /** The subscription is one-shot: once the poller has read a log with events of which none is
      acceptable, or has stopped, the wait can only end by cancellation or an error, whatever the
      canister logs later. */
  lemma {:induction false} WaitIsDecidedOnce(parse: Parser, trace: seq<Sys>, i: nat, j: nat, kind: Kind, version: uint64)
    requires Run(parse, trace) && i <= j < |trace|
    requires Hopeless(trace[i], kind, version)
    ensures Hopeless(trace[j], kind, version)
    decreases j - i
  {
    if i < j {
      HopelessAlong(parse, trace, i, kind, version);
      WaitIsDecidedOnce(parse, trace, i + 1, j, kind, version);
    }
  }

  // ---- What a wait can still come to ----

  /** A run that continues another one and in which the wait succeeds. */
  ghost predicate Succeeds(parse: Parser, trace: seq<Sys>, longer: seq<Sys>, kind: Kind, version: uint64) {
    && Run(parse, longer) && trace <= longer
    && longer[|longer| - 1].consumer.Accepted? && longer[|longer| - 1].consumer.kind == kind
    && longer[|longer| - 1].consumer.version == version
  }

  lemma RunGoesOn(parse: Parser, trace: seq<Sys>, t: Sys)
    requires Run(parse, trace) && Next(parse, trace[|trace| - 1], t)
    ensures Run(parse, trace + [t])
  {
    forall i ensures Legal(parse, trace + [t], i) {
      assert Legal(parse, trace, i);
    }
  }

  /** The consumer takes the first event of the buffer, if there is one. */
  function AfterTake(s: Sys): Sys
    requires s.consumer.Waiting? && s.buffer != []
  {
    var e := s.buffer[0];
    var u := s.(buffer := s.buffer[1..], taken := s.taken + [e]);
    if Acceptable(s.consumer.kind, s.consumer.version, e)
    then u.(consumer := Accepted(s.consumer.kind, s.consumer.version, e), closer := true) else u
  }

  function AfterSend(s: Sys): Sys
    requires s.poller.Sending? && s.poller.rest != []
  {
    var e := s.poller.rest[0];
    s.(poller := Sending(s.poller.rest[1..]), buffer := s.buffer + [e], sent := s.sent + [e])
  }

  ghost predicate Promising(s: Sys, kind: Kind, version: uint64) {
    s.consumer == Waiting(kind, version) && Decisive(s) && exists e :: e in Pending(s) && Acceptable(kind, version, e)
  }

  /** Taking the first event accepts it, or leaves the acceptable one pending. */
  lemma TakeIsPromising(parse: Parser, s: Sys, kind: Kind, version: uint64)
    requires Promising(s, kind, version) && s.buffer != []
    ensures Next(parse, s, AfterTake(s))
    ensures AfterTake(s).consumer == Accepted(kind, version, s.buffer[0])
         || (Promising(AfterTake(s), kind, version) && |Pending(AfterTake(s))| < |Pending(s)|)
  {
    assert WaitEvent(s, AfterTake(s));
    assert Pending(s) == [s.buffer[0]] + Pending(AfterTake(s));
  }

  lemma SendIsPromising(parse: Parser, s: Sys, kind: Kind, version: uint64)
    requires Inv(parse, s) && Promising(s, kind, version) && s.buffer == []
    ensures s.poller.Sending? && s.poller.rest != []
    ensures Next(parse, s, AfterSend(s)) && Promising(AfterSend(s), kind, version)
    ensures AfterSend(s).buffer != [] && |Pending(AfterSend(s))| == |Pending(s)|
  {
    assert SendEvent(s, AfterSend(s));
    assert Pending(AfterSend(s)) == [s.poller.rest[0]] + s.poller.rest[1..] == Pending(s);
  }

  /** If something acceptable is pending, the poller and the consumer can go on until it is accepted. */
  lemma {:induction false} PromisingSucceeds(parse: Parser, trace: seq<Sys>, kind: Kind, version: uint64) returns (longer: seq<Sys>)
    requires Run(parse, trace) && Promising(trace[|trace| - 1], kind, version)
    ensures Succeeds(parse, trace, longer, kind, version)
    decreases |Pending(trace[|trace| - 1])|, if trace[|trace| - 1].buffer == [] then 1 else 0
  {
    var s := trace[|trace| - 1];
    if s.buffer != [] {
      TakeIsPromising(parse, s, kind, version);
      RunGoesOn(parse, trace, AfterTake(s));
      longer := trace + [AfterTake(s)];
      if !AfterTake(s).consumer.Accepted? {
        longer := PromisingSucceeds(parse, longer, kind, version);
      }
    } else {
      Reachable(parse, trace, |trace| - 1);
      SendIsPromising(parse, s, kind, version);
      RunGoesOn(parse, trace, AfterSend(s));
      longer := PromisingSucceeds(parse, trace + [AfterSend(s)], kind, version);
    }
  }

  /** Once the poller has read its last log, a wait can still succeed, in some continuation of the run,
      exactly if something acceptable is pending. Nothing that is logged later plays a part. */
  lemma WaitCanSucceedExactly(parse: Parser, trace: seq<Sys>, kind: Kind, version: uint64)
    requires Run(parse, trace) && trace[|trace| - 1].consumer == Waiting(kind, version) && Decisive(trace[|trace| - 1])
    ensures (exists longer :: Succeeds(parse, trace, longer, kind, version))
        <==> exists e :: e in Pending(trace[|trace| - 1]) && Acceptable(kind, version, e)
  {
    var s := trace[|trace| - 1];
    if Promising(s, kind, version) {
      var longer := PromisingSucceeds(parse, trace, kind, version);
      assert Succeeds(parse, trace, longer, kind, version);
    }
    if longer :| Succeeds(parse, trace, longer, kind, version) {
      assert longer[|trace| - 1] == s;
      if Hopeless(s, kind, version) {
        WaitIsDecidedOnce(parse, longer, |trace| - 1, |longer| - 1, kind, version);
      }
    }
  }
}
