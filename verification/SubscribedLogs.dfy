/** parseEventsAll, and what a subscription sees of a printed log. */
module SubscribedLogs {
  import opened Bytes
  import opened EventLog
  import opened AdjudicatorEvents
  import opened Subscription

  // ---- parseEventsAll ----

  function Tagged(k: Kind, list: seq<EventData>): (r: seq<Ev>)
    ensures |r| == |list|
  {
    seq(|list|, i requires 0 <= i < |list| => Ev(k, list[i]))
  }

  function ParseAll(text: string): Snapshot {
    match EventsOf(Conclude, text)
    case BadLog => Unreadable
    case Crash => Crashes
    case Events(concluded) =>
      match EventsOf(Dispute, text)
      case BadLog => Unreadable
      case Crash => Crashes
      case Events(disputed) => Found(Tagged(Conclude, concluded) + Tagged(Dispute, disputed))
  }

  method ParseEventsAll(text: string) returns (r: Snapshot)
    ensures r == ParseAll(text)
  {
    var concluded := ParseEvents(Conclude, text);
    if concluded.BadLog? { return Unreadable; }
    if concluded.Crash? { return Crashes; }
    var disputed := ParseEvents(Dispute, text);
    if disputed.BadLog? { return Unreadable; }
    if disputed.Crash? { return Crashes; }
    var adjEvents := AppendAll(concluded.list, disputed.list);
    r := Found(adjEvents);
  }

  /** The two loops of parseEventsAll. */
  method AppendAll(concluded: seq<EventData>, disputed: seq<EventData>) returns (adjEvents: seq<Ev>)
    ensures adjEvents == Tagged(Conclude, concluded) + Tagged(Dispute, disputed)
  {
    adjEvents := [];
    for i := 0 to |concluded|
      invariant adjEvents == Tagged(Conclude, concluded)[..i]
    {
      adjEvents := adjEvents + [Ev(Conclude, concluded[i])];
    }
    for i := 0 to |disputed|
      invariant adjEvents == Tagged(Conclude, concluded) + Tagged(Dispute, disputed)[..i]
    {
      adjEvents := adjEvents + [Ev(Dispute, disputed[i])];
    }
  }

  lemma TaggedShape(concluded: seq<EventData>, disputed: seq<EventData>)
    requires |concluded| <= 1 && |disputed| <= 1
    ensures OneOfEach(Tagged(Conclude, concluded) + Tagged(Dispute, disputed))
  {
  }

  lemma ParsedShape(text: string)
    requires ParseAll(text).Found?
    ensures OneOfEach(ParseAll(text).list)
  {
    TaggedShape(EventsOf(Conclude, text).list, EventsOf(Dispute, text).list);
  }

  // ---- On printed logs ----

  /** What the records of one kind make of a log: a panic, or the events shown. */
  function ShownOf(recs: seq<Record>): (r: Events)
    ensures !r.BadLog? && (r.Events? ==> |r.list| <= 1)
  {
    match ParseOf(recs)
    case Panicked => Crash
    case Set(d) => if d.id == ZeroId() then Events([]) else Events([d])
    case _ => Events([])
  }

  lemma EventsOfPrinted(k: Kind, items: seq<Item>, tail: string)
    requires Clean(items, tail) && k != Funded
    ensures EventsOf(k, LogText(items, tail)) == ShownOf(RecordsOf(k, items))
  {
    ParsePrinted(k, items, tail);
  }

  lemma SnapshotOfPrinted(items: seq<Item>, tail: string)
    requires Clean(items, tail)
    ensures var c, d := ShownOf(RecordsOf(Conclude, items)), ShownOf(RecordsOf(Dispute, items));
            ParseAll(LogText(items, tail)) ==
              if c.Crash? || d.Crash? then Crashes else Found(Tagged(Conclude, c.list) + Tagged(Dispute, d.list))
  {
    EventsOfPrinted(Conclude, items, tail);
    EventsOfPrinted(Dispute, items, tail);
  }

  /** The parser sets a dispute or conclusion of a log at all. */
  predicate Shows(recs: seq<Record>) {
    ParseOf(recs).Set? && ParseOf(recs).data.id != ZeroId()
  }

  lemma ShownIsGreatest(recs: seq<Record>, version: uint64)
    requires Shows(recs)
    ensures ShownOf(recs) == Events([ParseOf(recs).data])
    ensures ParseOf(recs).data.version >= version <==> exists i :: 0 <= i < |recs| && recs[i].version >= version
  {
    SelectedIsGreatest(recs);
  }

  lemma AcceptableInTagged(concluded: seq<EventData>, disputed: seq<EventData>, version: uint64)
    requires |disputed| <= 1
    ensures (exists e :: e in Tagged(Conclude, concluded) + Tagged(Dispute, disputed) && Acceptable(Dispute, version, e))
        <==> disputed != [] && disputed[0].version >= version
  {
    var c, d := Tagged(Conclude, concluded), Tagged(Dispute, disputed);
    assert forall e :: e in c ==> e.kind == Conclude;
    if disputed != [] {
      assert d[0] == Ev(Dispute, disputed[0]) && d[0] in c + d;
    }
  }

  lemma ShownDecides(concluded: seq<EventData>, recs: seq<Record>, version: uint64)
    requires ShownOf(recs).Events?
    ensures (exists e :: e in Tagged(Conclude, concluded) + Tagged(Dispute, ShownOf(recs).list) && Acceptable(Dispute, version, e))
        <==> Shows(recs) && exists i :: 0 <= i < |recs| && recs[i].version >= version
  {
    AcceptableInTagged(concluded, ShownOf(recs).list, version);
    if Shows(recs) {
      ShownIsGreatest(recs, version);
    }
  }

  /** waitForDisputed is decided by a printed log as if it looked at every record: the log holds an
      acceptable event exactly if the parser survives it, shows a dispute, and some dispute in it has at
      least the requested version. */
  lemma DisputeSeenInLog(items: seq<Item>, tail: string, version: uint64)
    requires Clean(items, tail)
    ensures var recs, parsed := RecordsOf(Dispute, items), ParseAll(LogText(items, tail));
            (parsed.Found? && exists e :: e in parsed.list && Acceptable(Dispute, version, e)) <==>
              && ParseOf(RecordsOf(Conclude, items)) != Panicked && Shows(recs)
              && exists i :: 0 <= i < |recs| && recs[i].version >= version
  {
    var c, recs := ShownOf(RecordsOf(Conclude, items)), RecordsOf(Dispute, items);
    SnapshotOfPrinted(items, tail);
    assert c.Crash? <==> ParseOf(RecordsOf(Conclude, items)) == Panicked;
    assert Shows(recs) ==> !ShownOf(recs).Crash?;
    if !c.Crash? && !ShownOf(recs).Crash? {
      ShownDecides(c.list, recs, version);
    }
  }

  lemma ConclusionInTagged(recs: seq<Record>, disputed: seq<EventData>)
    requires ShownOf(recs).Events?
    ensures (exists e :: e in Tagged(Conclude, ShownOf(recs).list) + Tagged(Dispute, disputed) && e.kind == Conclude) <==> Shows(recs)
  {
    var c, d := Tagged(Conclude, ShownOf(recs).list), Tagged(Dispute, disputed);
    assert forall e :: e in d ==> e.kind == Dispute;
    if Shows(recs) {
      assert c[0] == Ev(Conclude, ParseOf(recs).data) && c[0] in c + d;
    }
  }

  /** waitForConcluded, which takes a conclusion of any version: the log holds one exactly if the parser
      survives it and shows the selected conclusion. */
  lemma ConclusionSeenInLog(items: seq<Item>, tail: string, version: uint64)
    requires Clean(items, tail)
    ensures var parsed := ParseAll(LogText(items, tail));
            (parsed.Found? && exists e :: e in parsed.list && Acceptable(Conclude, version, e)) <==>
              ParseOf(RecordsOf(Dispute, items)) != Panicked && Shows(RecordsOf(Conclude, items))
  {
    var c, d := RecordsOf(Conclude, items), ShownOf(RecordsOf(Dispute, items));
    SnapshotOfPrinted(items, tail);
    assert d.Crash? <==> ParseOf(RecordsOf(Dispute, items)) == Panicked;
    assert Shows(c) ==> !ShownOf(c).Crash?;
    if !d.Crash? && !ShownOf(c).Crash? {
      ConclusionInTagged(c, d.list);
    }
  }

  lemma ShownIsSelected(recs: seq<Record>)
    requires ShownOf(recs).Events?
    ensures forall d :: d in ShownOf(recs).list ==> Shows(recs) && d == ParseOf(recs).data
  {
  }

  lemma TaggedFrom(k: Kind, list: seq<EventData>, e: Ev)
    requires e in Tagged(k, list)
    ensures e.kind == k && e.data in list
  {
    var i :| 0 <= i < |Tagged(k, list)| && Tagged(k, list)[i] == e;
    assert e.data == list[i];
  }

  /** An event of a printed log is the selected record of its kind. */
  lemma FoundIsSelected(items: seq<Item>, tail: string, e: Ev)
    requires Clean(items, tail) && ParseAll(LogText(items, tail)).Found? && e in ParseAll(LogText(items, tail)).list
    ensures Shows(RecordsOf(e.kind, items)) && e.data == ParseOf(RecordsOf(e.kind, items)).data
  {
    SnapshotOfPrinted(items, tail);
    var c, d := RecordsOf(Conclude, items), RecordsOf(Dispute, items);
    if e in Tagged(Conclude, ShownOf(c).list) {
      TaggedFrom(Conclude, ShownOf(c).list, e);
      ShownIsSelected(c);
    } else {
      TaggedFrom(Dispute, ShownOf(d).list, e);
      ShownIsSelected(d);
    }
  }

  /** Subscriptions that use the parser of this repository keep the channel safe, and send at most one
      conclusion and then at most one dispute. */
  lemma SubscriptionIsSafe(trace: seq<Sys>, i: nat)
    requires Run(ParseAll, trace) && i < |trace|
    ensures var s := trace[i];
            && (s.poller.Sending? && s.poller.rest != [] ==> !s.chanClosed && |s.buffer| < BUFFER_SIZE)
            && (s.poller == Polling ==> !OwnEventReady(s))
            && s.closes <= 1 && OneOfEach(s.sent)
  {
    forall text: string | ParseAll(text).Found? ensures OneOfEach(ParseAll(text).list) {
      ParsedShape(text);
    }
    ChannelSafety(ParseAll, trace, i);
  }
}
