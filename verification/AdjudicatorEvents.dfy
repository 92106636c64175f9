/** connector/utils.go and connector/adjudicator_eventsub.go: one event out of a log. */
module AdjudicatorEvents {
  import opened Bytes
  import opened Text
  import opened Matcher
  import opened EventLog

  datatype EventData = EventData(
    id: Bytes32, version: uint64, finalized: bool, alloc0: uint64, alloc1: uint64, timeout: uint64, timestamp: uint64)

  function ZeroId(): Bytes32 { Zeros(32) }

  /** What parseAdjEvents does to the event it is given. */
  datatype Parsed = Unchanged | Set(data: EventData) | Failed | Panicked

  // ---- Selecting the highest version ----

  predicate AllParse(vs: seq<string>) {
    forall i :: 0 <= i < |vs| ==> ParseUint(vs[i]).Some?
  }

  /** The first index of the greatest number, -1 if there is none above zero. */
  function MaxIndex(xs: seq<uint64>): (i: int)
    ensures -1 <= i < |xs|
  {
    if xs == [] then -1
    else
      var n := |xs| - 1;
      var j := MaxIndex(xs[..n]);
      if xs[n] > (if j < 0 then 0 else xs[j]) then n else j
  }

  lemma {:induction false} MaxIndexMeaning(xs: seq<uint64>)
    ensures MaxIndex(xs) == -1 <==> forall k :: 0 <= k < |xs| ==> xs[k] == 0
    ensures var i := MaxIndex(xs);
            i >= 0 ==>
              && xs[i] > 0
              && (forall k :: 0 <= k < |xs| ==> xs[k] <= xs[i])
              && (forall k :: 0 <= k < i ==> xs[k] < xs[i])
  {
    if xs != [] {
      var front := xs[..|xs| - 1];
      MaxIndexMeaning(front);
      assert forall k :: 0 <= k < |front| ==> front[k] == xs[k];
    }
  }

  function Numbers(vs: seq<string>): (xs: seq<uint64>)
    requires AllParse(vs)
    ensures |xs| == |vs|
  {
    seq(|vs|, i requires 0 <= i < |vs| => ParseUint(vs[i]).value)
  }

  function MaxVersionIndex(vs: seq<string>): (i: int)
    ensures -1 <= i < |vs|
  {
    if AllParse(vs) then MaxIndex(Numbers(vs)) else -1
  }

  /** The loop of findMaxVersionIndex. */
  method FindMaxVersionIndex(vs: seq<string>) returns (maxVersionIdx: int)
    ensures maxVersionIdx == MaxVersionIndex(vs)
    ensures maxVersionIdx == -1 <==> !AllParse(vs) || forall k :: 0 <= k < |vs| ==> ParseUint(vs[k]) == Some(0)
    ensures maxVersionIdx >= 0 ==> AllParse(vs) && forall k :: 0 <= k < |vs| ==>
      && ParseUint(vs[k]).value <= ParseUint(vs[maxVersionIdx]).value
      && (k < maxVersionIdx ==> ParseUint(vs[k]).value < ParseUint(vs[maxVersionIdx]).value)
  {
    var highestVersion: uint64 := 0;
    maxVersionIdx := -1;
    for i := 0 to |vs|
      invariant AllParse(vs[..i]) && maxVersionIdx == MaxIndex(Numbers(vs[..i]))
      invariant highestVersion == if maxVersionIdx < 0 then 0 else Numbers(vs[..i])[maxVersionIdx]
    {
      var v := ParseUint(vs[i]);
      if v == None { return -1; }
      assert Numbers(vs[..i + 1])[..i] == Numbers(vs[..i]);
      if v.value > highestVersion {
        highestVersion, maxVersionIdx := v.value, i;
      }
    }
    assert vs[..|vs|] == vs;
    MaxIndexMeaning(Numbers(vs));
    assert forall k :: 0 <= k < |vs| ==> Numbers(vs)[k] == ParseUint(vs[k]).value;
  }

  // ---- The fields ----

  /** hex.DecodeString, copied into a 32-byte array. */
  function ParseChannelID(s: string): Option<Bytes32> {
    match HexDecode(s)
    case None => None
    case Some(b) => Some(if |b| >= 32 then b[..32] else b + Zeros(32 - |b|))
  }

  function CommaAt(s: string): (i: nat)
    ensures i <= |s|
    ensures forall k :: 0 <= k < i ==> s[k] != ','
    ensures i < |s| ==> s[i] == ','
  {
    if s == "" || s[0] == ',' then 0 else 1 + CommaAt(s[1..])
  }

  /** The two groups of the allocation pattern, without underscores, as numbers. */
  function ParseAllocations(s: string): Option<(uint64, uint64)> {
    var i := CommaAt(s);
    if i + 2 > |s| then None
    else
      match (ParseUint(Strip(s[..i])), ParseUint(Strip(s[i + 2..])))
      case (Some(a), Some(b)) => Some((a, b))
      case _ => None
  }

  /** From the match lists of the six patterns. Every list is indexed with the same index, and an
      index outside a list is a panic. */
  function ParseMatches(m: seq<seq<string>>): Parsed
    requires |m| == 6
  {
    if [] in m then Unchanged
    else
      var i := if |m[0]| == 1 then 0 else MaxVersionIndex(m[1]);
      if i < 0 then Panicked else ParseAt(m, i)
  }

  /** The i-th entries of all six lists, looked up and parsed one after the other. */
  function ParseAt(m: seq<seq<string>>, i: nat): Parsed
    requires |m| == 6
  {
    if i >= |m[0]| then Panicked
    else if ParseChannelID(m[0][i]) == None then Failed
    else if i >= |m[1]| then Panicked
    else if ParseUint(m[1][i]) == None then Failed
    else if i >= |m[2]| then Panicked
    else if ParseBool(m[2][i]) == None then Failed
    else if i >= |m[3]| then Panicked
    else if ParseAllocations(m[3][i]) == None then Failed
    else if i >= |m[4]| then Panicked
    else if ParseUint(m[4][i]) == None then Failed
    else if i >= |m[5]| then Panicked
    else if ParseUint(m[5][i]) == None then Failed
    else
      var a := ParseAllocations(m[3][i]).value;
      Set(EventData(ParseChannelID(m[0][i]).value, ParseUint(m[1][i]).value, ParseBool(m[2][i]).value,
                    a.0, a.1, ParseUint(m[4][i]).value, ParseUint(m[5][i]).value))
  }

  function MatchLists(patterns: seq<Pattern>, input: string): (m: seq<seq<string>>)
    ensures |m| == |patterns|
  {
    seq(|patterns|, i requires 0 <= i < |patterns| => FindAll(patterns[i], input))
  }

  function AdjFieldAt(j: nat): (w: What)
    requires j < 6
    ensures IsAdjField(w)
  {
    match j case 0 => Id case 1 => Version case 2 => Final case 3 => Alloc case 4 => Timeout case _ => Stamp
  }

  function Patterns(k: Kind): (p: seq<Pattern>)
    ensures |p| == 6
  {
    seq(6, j requires 0 <= j < 6 => PatternOf(k, AdjFieldAt(j)))
  }

  function ParseText(k: Kind, input: string): Parsed {
    ParseMatches(MatchLists(Patterns(k), input))
  }

  // ---- The parser in its own form ----

  datatype Status = Fine | Error | Panic

  /** ConcludedEvent and DisputedEvent, which differ only in the flag that SetEventData raises. */
  class AdjEvent {
    var finalized: bool
    var alloc0: uint64
    var alloc1: uint64
    var tout: uint64
    var timestamp: uint64
    var seen: bool
    var versionV: uint64
    var idV: Bytes32

    constructor ()
      ensures Data() == EventData(ZeroId(), 0, false, 0, 0, 0, 0) && !seen
    {
      finalized, alloc0, alloc1, tout, timestamp, seen, versionV := false, 0, 0, 0, 0, false, 0;
      idV := ZeroId();
    }

    function Data(): EventData
      reads this
    {
      EventData(idV, versionV, finalized, alloc0, alloc1, tout, timestamp)
    }

    method SetEventData(cid: Bytes32, version: uint64, finalized: bool, a0: uint64, a1: uint64, timeout: uint64, timestamp: uint64)
      modifies this
      ensures Data() == EventData(cid, version, finalized, a0, a1, timeout, timestamp) && seen
    {
      idV := cid;
      versionV := version;
      this.finalized := finalized;
      alloc0, alloc1 := a0, a1;
      tout := timeout;
      this.timestamp := timestamp;
      seen := true;
    }
  }

  method ParseAdjEvents(input: string, event: AdjEvent, patterns: seq<Pattern>) returns (r: Status)
    requires |patterns| == 6
    modifies event
    ensures match ParseMatches(MatchLists(patterns, input))
            case Unchanged => r == Fine && event.Data() == old(event.Data()) && event.seen == old(event.seen)
            case Set(d) => r == Fine && event.Data() == d && event.seen
            case Failed => r == Error && event.Data() == old(event.Data())
            case Panicked => r == Panic && event.Data() == old(event.Data())
  {
    ghost var m := MatchLists(patterns, input);
    var matches: seq<seq<string>> := [];
    for i := 0 to |patterns|
      invariant matches == m[..i] && [] !in matches
    {
      var found := FindAll(patterns[i], input);
      assert m[i] == found;
      if found == [] { return Fine; }
      matches := matches + [found];
    }
    assert matches == m;
    var k := 0;
    if |matches[0]| != 1 {
      k := FindMaxVersionIndex(matches[1]);
    }
    if k < 0 || k >= |matches[0]| { return Panic; }
    var cid := ParseChannelID(matches[0][k]);
    if cid == None { return Error; }
    if k >= |matches[1]| { return Panic; }
    var version := ParseUint(matches[1][k]);
    if version == None { return Error; }
    if k >= |matches[2]| { return Panic; }
    var finalized := ParseBool(matches[2][k]);
    if finalized == None { return Error; }
    if k >= |matches[3]| { return Panic; }
    var alloc := ParseAllocations(matches[3][k]);
    if alloc == None { return Error; }
    if k >= |matches[4]| { return Panic; }
    var timeout := ParseUint(matches[4][k]);
    if timeout == None { return Error; }
    if k >= |matches[5]| { return Panic; }
    var timestamp := ParseUint(matches[5][k]);
    if timestamp == None { return Error; }
    event.SetEventData(cid.value, version.value, finalized.value, alloc.value.0, alloc.value.1, timeout.value, timestamp.value);
    return Fine;
  }

  /** At most one event per kind; one with an all-zero channel is dropped. */
  datatype Events = Events(list: seq<EventData>) | BadLog | Crash

  function EventsOf(k: Kind, input: string): (r: Events)
    ensures r.Events? ==> |r.list| <= 1 && forall i :: 0 <= i < |r.list| ==> r.list[i].id != seq(32, _ => 0)
  {
    match ParseText(k, input)
    case Unchanged => Events([])
    case Set(d) => if d.id == ZeroId() then Events([]) else Events([d])
    case Failed => BadLog
    case Panicked => Crash
  }

  /** parseEventsConcluded and parseEventsDisputed. */
  method ParseEvents(k: Kind, input: string) returns (r: Events)
    ensures r == EventsOf(k, input)
  {
    var event := new AdjEvent();
    var err := ParseAdjEvents(input, event, Patterns(k));
    match err
    case Error => r := BadLog;
    case Panic => r := Crash;
    case Fine => r := if event.idV == ZeroId() then Events([]) else Events([event.Data()]);
  }

  // ---- The parser on printed logs ----

  /** The event with the fields of `r` and the allocations of `s`. */
  function Merged(r: Record, s: Record): EventData
    requires InRange(s)
  {
    EventData(r.id, r.version, r.finalized, s.alloc0, s.alloc1, r.timeout, r.timestamp)
  }

  function DataOf(r: Record): EventData
    requires InRange(r)
  {
    Merged(r, r)
  }

  function Versions(recs: seq<Record>): (xs: seq<uint64>)
    ensures |xs| == |recs|
  {
    seq(|recs|, i requires 0 <= i < |recs| => recs[i].version)
  }

  /** The records whose allocations the pattern for allocations sees. */
  function InRangeOf(recs: seq<Record>): (ps: seq<Record>)
    ensures |ps| <= |recs| && forall i :: 0 <= i < |ps| ==> InRange(ps[i])
  {
    if recs == [] then [] else (if InRange(recs[0]) then [recs[0]] else []) + InRangeOf(recs[1..])
  }

  predicate InRangeUpTo(recs: seq<Record>, i: nat)
    requires i < |recs|
  {
    forall j :: 0 <= j <= i ==> InRange(recs[j])
  }

  /** The record that the parser is meant to select: the only one, or the first of the greatest
      version. With several records of version 0 the index is -1. */
  function Selected(recs: seq<Record>): (i: int)
    requires recs != []
    ensures -1 <= i < |recs|
  {
    if |recs| == 1 then 0 else MaxIndex(Versions(recs))
  }

  lemma {:induction false} BodiesInOrder(w: What, recs: seq<Record>)
    requires IsAdjField(w) && w != Alloc
    ensures |AdjBodies(w, recs)| == |recs|
    ensures forall i :: 0 <= i < |recs| ==> AdjBodies(w, recs)[i] == AdjBody(recs[i], w)
  {
    if recs != [] {
      assert forall i :: 0 <= i < |recs| - 1 ==> recs[1..][i] == recs[i + 1];
      BodiesInOrder(w, recs[1..]);
    }
  }

  lemma {:induction false} AllocBodies(recs: seq<Record>)
    ensures |AdjBodies(Alloc, recs)| == |InRangeOf(recs)|
    ensures forall i :: 0 <= i < |InRangeOf(recs)| ==> AdjBodies(Alloc, recs)[i] == AdjBody(InRangeOf(recs)[i], Alloc)
  {
    if recs != [] {
      AllocBodies(recs[1..]);
    }
  }

  lemma NumberParses(n: uint64)
    ensures ParseUint(Dec(n)) == Some(n)
  {
    DecValue(n);
  }

  lemma IdParses(id: Bytes32)
    ensures ParseChannelID(HexEncode(id)) == Some(id)
  {
    HexRoundTrip(id);
    assert id[..32] == id;
  }

  /** An ID is cut after 32 bytes, and a shorter one is filled up with zeros. */
  lemma IdIsFitted(b: seq<byte>, i: nat)
    requires i < 32
    ensures ParseChannelID(HexEncode(b)).Some?
    ensures ParseChannelID(HexEncode(b)).value[i] == if i < |b| then b[i] else 0
  {
    HexRoundTrip(b);
  }

  lemma AllocationsParse(a: nat, b: nat)
    requires a < TWO64 && b < TWO64
    ensures ParseAllocations(Group(a) + ", " + Group(b)) == Some((a, b))
  {
    var s, n := Group(a) + ", " + Group(b), |Group(a)|;
    GroupIsGrouped(a);
    GroupedChars(Group(a));
    assert forall k :: 0 <= k < n ==> s[k] == Group(a)[k];
    assert s[n] == ',';
    assert CommaAt(s) == n;
    assert s[..n] == Group(a) && s[n + 2..] == Group(b);
    StripGroup(a);
    StripGroup(b);
  }

  lemma PrintedVersions(recs: seq<Record>)
    ensures MaxVersionIndex(AdjBodies(Version, recs)) == MaxIndex(Versions(recs))
  {
    var vs := AdjBodies(Version, recs);
    BodiesInOrder(Version, recs);
    forall i | 0 <= i < |recs| ensures ParseUint(vs[i]) == Some(recs[i].version) {
      NumberParses(recs[i].version);
    }
    assert Numbers(vs) == Versions(recs);
  }

  /** The six match lists of a printed log. */
  function PrintedLists(recs: seq<Record>): (m: seq<seq<string>>)
    ensures |m| == 6
  {
    seq(6, j requires 0 <= j < 6 => AdjBodies(AdjFieldAt(j), recs))
  }

  lemma ListsOfPrinted(k: Kind, items: seq<Item>, tail: string)
    requires Clean(items, tail) && k != Funded
    ensures MatchLists(Patterns(k), LogText(items, tail)) == PrintedLists(RecordsOf(k, items))
  {
    forall j | 0 <= j < 6
      ensures FindAll(PatternOf(k, AdjFieldAt(j)), LogText(items, tail)) == AdjBodies(AdjFieldAt(j), RecordsOf(k, items))
    {
      FindAdjField(k, AdjFieldAt(j), items, tail);
    }
  }

  lemma NumbersParse(r: Record)
    ensures ParseUint(AdjBody(r, Version)) == Some(r.version)
    ensures ParseUint(AdjBody(r, Timeout)) == Some(r.timeout)
    ensures ParseUint(AdjBody(r, Stamp)) == Some(r.timestamp)
  {
    NumberParses(r.version);
    NumberParses(r.timeout);
    NumberParses(r.timestamp);
  }

  lemma FlagsParse(r: Record)
    ensures ParseChannelID(AdjBody(r, Id)) == Some(r.id)
    ensures ParseBool(AdjBody(r, Final)) == Some(r.finalized)
  {
    IdParses(r.id);
    ParsePrintBool(r.finalized);
  }

  /** Five lists hold the printed values of the records, the fourth those of the records in range. */
  lemma ListsHold(recs: seq<Record>, i: nat)
    requires i < |recs|
    ensures var m := PrintedLists(recs);
            && (forall j: nat :: j < 6 ==> |m[j]| == if j == 3 then |InRangeOf(recs)| else |recs|)
            && m[0][i] == AdjBody(recs[i], Id) && m[1][i] == AdjBody(recs[i], Version) && m[2][i] == AdjBody(recs[i], Final)
            && (i < |m[3]| ==> m[3][i] == AdjBody(InRangeOf(recs)[i], Alloc))
            && m[4][i] == AdjBody(recs[i], Timeout) && m[5][i] == AdjBody(recs[i], Stamp)
  {
    assert AdjFieldAt(0) == Id && AdjFieldAt(1) == Version && AdjFieldAt(2) == Final;
    assert AdjFieldAt(3) == Alloc && AdjFieldAt(4) == Timeout && AdjFieldAt(5) == Stamp;
    BodiesInOrder(Id, recs);
    BodiesInOrder(Version, recs);
    BodiesInOrder(Final, recs);
    AllocBodies(recs);
    BodiesInOrder(Timeout, recs);
    BodiesInOrder(Stamp, recs);
  }

  lemma EntriesParse(m: seq<seq<string>>, i: nat, r: Record, ps: seq<Record>)
    requires |m| == 6 && forall j: nat :: j < 6 && j != 3 ==> i < |m[j]|
    requires m[0][i] == AdjBody(r, Id) && m[1][i] == AdjBody(r, Version) && m[2][i] == AdjBody(r, Final)
    requires |m[3]| == |ps| && (i < |ps| ==> InRange(ps[i]) && m[3][i] == AdjBody(ps[i], Alloc))
    requires m[4][i] == AdjBody(r, Timeout) && m[5][i] == AdjBody(r, Stamp)
    ensures ParseAt(m, i) == if i < |ps| then Set(Merged(r, ps[i])) else Panicked
  {
    NumbersParse(r);
    FlagsParse(r);
    if i < |ps| {
      AllocationsParse(ps[i].alloc0, ps[i].alloc1);
    }
  }

  /** Looking up the i-th entries takes the i-th record and the allocations of the i-th one in range. */
  lemma RecordParses(recs: seq<Record>, i: nat)
    requires i < |recs|
    ensures ParseAt(PrintedLists(recs), i)
         == if i < |InRangeOf(recs)| then Set(Merged(recs[i], InRangeOf(recs)[i])) else Panicked
  {
    ListsHold(recs, i);
    EntriesParse(PrintedLists(recs), i, recs[i], InRangeOf(recs));
  }

  /** What is parsed from a printed log. Nothing is seen if no record has allocations in
      1_000..999_999. Otherwise a record is selected by version, counting all of them, and gets the
      allocations of the record at the same place among those in range; without such a record, or with
      several that all have version 0, an index is out of range. */
  function ParseOf(recs: seq<Record>): Parsed {
    var ps := InRangeOf(recs);
    if ps == [] then Unchanged
    else if 0 <= Selected(recs) < |ps| then Set(Merged(recs[Selected(recs)], ps[Selected(recs)]))
    else Panicked
  }

  lemma ListsParse(recs: seq<Record>)
    ensures ParseMatches(PrintedLists(recs)) == ParseOf(recs)
  {
    var m := PrintedLists(recs);
    AllocBodies(recs);
    assert AdjFieldAt(3) == Alloc && AdjFieldAt(1) == Version;
    if InRangeOf(recs) == [] {
      assert m[3] == [];
    } else {
      ListsHold(recs, 0);
      assert [] !in m;
      PrintedVersions(recs);
      assert |m[0]| == |recs| && (if |m[0]| == 1 then 0 else MaxVersionIndex(m[1])) == Selected(recs);
      if Selected(recs) >= 0 {
        RecordParses(recs, Selected(recs));
      }
    }
  }

  /** The parser on any log, mixed with events of the other kinds and with any text without '='. */
  lemma ParsePrinted(k: Kind, items: seq<Item>, tail: string)
    requires Clean(items, tail) && k != Funded
    ensures ParseText(k, LogText(items, tail)) == ParseOf(RecordsOf(k, items))
  {
    ListsOfPrinted(k, items, tail);
    ListsParse(RecordsOf(k, items));
  }

  // ---- When the parser is right ----

  lemma {:induction false} SeesSome(recs: seq<Record>)
    ensures InRangeOf(recs) != [] <==> exists i :: 0 <= i < |recs| && InRange(recs[i])
  {
    if recs != [] {
      SeesSome(recs[1..]);
      assert forall i :: 0 <= i < |recs| - 1 ==> recs[1..][i] == recs[i + 1];
      if i :| 0 <= i < |recs| && InRange(recs[i]) && i > 0 {
        assert InRange(recs[1..][i - 1]);
      }
    }
  }

  /** A log reads like an empty one exactly if no record has both allocations in 1_000..999_999. */
  lemma SeenExactlyInRange(k: Kind, items: seq<Item>, tail: string)
    requires Clean(items, tail) && k != Funded
    ensures ParseText(k, LogText(items, tail)) != Unchanged
        <==> exists i :: 0 <= i < |RecordsOf(k, items)| && InRange(RecordsOf(k, items)[i])
  {
    ParsePrinted(k, items, tail);
    SeesSome(RecordsOf(k, items));
  }

  /** While all records are in range, the records in range are the records. */
  lemma {:induction false} NothingOverlooked(recs: seq<Record>, i: nat)
    requires i < |recs| && InRangeUpTo(recs, i)
    ensures i < |InRangeOf(recs)| && InRangeOf(recs)[i] == recs[i]
  {
    assert InRange(recs[0]);
    if i > 0 {
      assert forall j :: 0 <= j <= i - 1 ==> recs[1..][j] == recs[j + 1];
      NothingOverlooked(recs[1..], i - 1);
    }
  }

  lemma {:induction false} FoundAtOrAfter(recs: seq<Record>, i: nat)
    requires i < |InRangeOf(recs)|
    ensures exists j :: i <= j < |recs| && InRangeOf(recs)[i] == recs[j]
  {
    if InRange(recs[0]) && i == 0 {
      assert InRangeOf(recs)[0] == recs[0];
    } else {
      var i' := if InRange(recs[0]) then i - 1 else i;
      FoundAtOrAfter(recs[1..], i');
      var j :| i' <= j < |recs[1..]| && InRangeOf(recs[1..])[i'] == recs[1..][j];
      assert InRangeOf(recs)[i] == recs[j + 1];
    }
  }

  /** After the first overlooked record the places no longer agree. */
  lemma {:induction false} FoundLater(recs: seq<Record>, i: nat)
    requires i < |InRangeOf(recs)| && !InRangeUpTo(recs, i)
    ensures exists j :: i < j < |recs| && InRangeOf(recs)[i] == recs[j]
  {
    if InRange(recs[0]) {
      assert i > 0 && !InRangeUpTo(recs[1..], i - 1) by {
        var j :| 0 <= j <= i && !InRange(recs[j]);
        assert recs[1..][j - 1] == recs[j];
      }
      FoundLater(recs[1..], i - 1);
      var j :| i - 1 < j < |recs[1..]| && InRangeOf(recs[1..])[i - 1] == recs[1..][j];
      assert InRangeOf(recs)[i] == recs[j + 1];
    } else {
      FoundAtOrAfter(recs[1..], i);
      var j :| i <= j < |recs[1..]| && InRangeOf(recs[1..])[i] == recs[1..][j];
      assert InRangeOf(recs)[i] == recs[j + 1];
    }
  }

  predicate SameAllocations(r: Record, s: Record) {
    r.alloc0 == s.alloc0 && r.alloc1 == s.alloc1
  }

  /** The event has the allocations of a record later than the selected one. */
  ghost predicate TakesLater(recs: seq<Record>, i: nat, p: Parsed)
    requires i < |recs|
  {
    exists j :: i < j < |recs| && InRange(recs[j]) && p == Set(Merged(recs[i], recs[j]))
  }

  /** The parser is right about the selected record exactly if the record at its place among those in
      range has the same allocations. It is whenever no record up to the selected one is overlooked;
      records after it do not matter. If one is overlooked, the parser sees nothing, panics, or takes the
      allocations of a later record. */
  lemma ParsedIsSelected(k: Kind, items: seq<Item>, tail: string)
    requires Clean(items, tail) && k != Funded
    requires RecordsOf(k, items) != [] && Selected(RecordsOf(k, items)) >= 0
    ensures var recs, p := RecordsOf(k, items), ParseText(k, LogText(items, tail));
            var i, ps := Selected(recs), InRangeOf(recs);
            && ((InRange(recs[i]) && p == Set(DataOf(recs[i]))) <==> i < |ps| && SameAllocations(ps[i], recs[i]))
            && (InRangeUpTo(recs, i) ==>
                  && p == Set(DataOf(recs[i]))
                  && p.data.id == recs[i].id && p.data.version == recs[i].version && p.data.finalized == recs[i].finalized
                  && p.data.alloc0 == recs[i].alloc0 && p.data.alloc1 == recs[i].alloc1
                  && p.data.timeout == recs[i].timeout && p.data.timestamp == recs[i].timestamp)
            && (!InRangeUpTo(recs, i) ==> p == Unchanged || p == Panicked || TakesLater(recs, i, p))
  {
    ParsePrinted(k, items, tail);
    var recs := RecordsOf(k, items);
    var i, ps := Selected(recs), InRangeOf(recs);
    if InRangeUpTo(recs, i) {
      NothingOverlooked(recs, i);
    } else if i < |ps| {
      FoundLater(recs, i);
    }
  }

  lemma SelectedIsGreatest(recs: seq<Record>)
    requires recs != [] && Selected(recs) >= 0
    ensures forall i :: 0 <= i < |recs| ==> recs[i].version <= recs[Selected(recs)].version
    ensures forall i :: 0 <= i < Selected(recs) ==> recs[i].version < recs[Selected(recs)].version
  {
    var xs := Versions(recs);
    MaxIndexMeaning(xs);
    assert forall i :: 0 <= i < |recs| ==> xs[i] == recs[i].version;
  }

  /** Keeping only the greatest version loses nothing for a version filter: if the parser sets an event
      at all, that event passes the filter exactly when some record of the log does. */
  lemma MaximumLosesNothing(k: Kind, items: seq<Item>, tail: string, v: uint64)
    requires Clean(items, tail) && k != Funded
    requires ParseText(k, LogText(items, tail)).Set?
    ensures var recs, d := RecordsOf(k, items), ParseText(k, LogText(items, tail)).data;
            && (forall i :: 0 <= i < |recs| ==> recs[i].version <= d.version)
            && (d.version >= v <==> exists i :: 0 <= i < |recs| && recs[i].version >= v)
            && EventsOf(k, LogText(items, tail)) == if d.id == ZeroId() then Events([]) else Events([d])
  {
    ParsePrinted(k, items, tail);
    SelectedIsGreatest(RecordsOf(k, items));
  }

  lemma FirstOverlooked(a: Record, b: Record, c: Record)
    requires !InRange(a) && InRange(b) && InRange(c)
    ensures InRangeOf([a, b, c]) == [b, c]
  {
    assert [a, b, c][1..] == [b, c] && [b, c][1..] == [c] && [c][1..] == [];
    assert InRangeOf([c]) == [c] && InRangeOf([b, c]) == [b, c];
  }

  /** The smallest logs on which the event combines two records. */
  lemma OverlookedAllocationMisleads(k: Kind, items: seq<Item>, tail: string, a: Record, b: Record, c: Record)
    requires Clean(items, tail) && k != Funded && RecordsOf(k, items) == [a, b, c]
    requires !InRange(a) && InRange(b) && InRange(c)
    requires b.version > a.version && b.version >= c.version
    ensures ParseText(k, LogText(items, tail)) == Set(Merged(b, c))
  {
    var xs := Versions([a, b, c]);
    ParsePrinted(k, items, tail);
    MaxIndexMeaning(xs);
    assert xs[0] == a.version && xs[1] == b.version && xs[2] == c.version;
    FirstOverlooked(a, b, c);
  }
}
