/** The canister's event log: which fields it prints for which event, and which pattern of
    connector/adjudicator_eventsub.go and channel/funder_events.go reads which field. */
module EventLog {
  import opened Bytes
  import opened Text
  import opened Matcher

  datatype Kind = Conclude | Dispute | Funded

  datatype What = Id | Version | Final | Alloc | Timeout | Stamp | Who | Total

  /** A dispute or a conclusion. The canister's amounts are unbounded naturals. */
  datatype Record = Record(
    id: Bytes32, version: uint64, finalized: bool, alloc0: nat, alloc1: nat, timeout: uint64, timestamp: uint64)

  datatype Funding = Funding(who: seq<byte>, total: nat, timestamp: nat)

  /** What is printed before each field of an event. */
  type Seps6 = s: seq<string> | |s| == 6 witness seq(6, _ => "")
  type Seps3 = s: seq<string> | |s| == 3 witness seq(3, _ => "")

  /** One event in the log. */
  datatype Item = Adj(seps: Seps6, kind: Kind, rec: Record) | Fund(fundSeps: Seps3, ev: Funding)

  // ---- Prefixes, shapes and closing markers ----

  function KindText(k: Kind): string {
    match k case Conclude => "Conclude" case Dispute => "Dispute" case Funded => "Funded"
  }

  function Word(w: What): string {
    match w
    case Id => "_state"
    case Version => "_state"
    case Final => "_timeout"
    case Alloc => "_alloc"
    case Timeout => "_timeout"
    case Stamp => "_timestamp"
    case Who => "_who"
    case Total => "_total"
  }

  function NameOf(k: Kind, w: What): string {
    if w == Who then "Funded event: " + KindText(k) + Word(w) else KindText(k) + Word(w)
  }

  function TagOf(w: What): string {
    match w
    case Id => "ChannelIDStart"
    case Version => "VersionStart"
    case Final => "FinalizedStart"
    case Alloc => "AllocStart"
    case Timeout => "TimeoutStart"
    case Stamp => "TimestampStart"
    case Who => "PublicKey(CompressedEdwardsY: ["
    case Total => "TotalStart"
  }

  function CloseOf(w: What): string {
    match w
    case Id => "ChannelIDEnd"
    case Version => "VersionEnd"
    case Final => "FinalizedEnd"
    case Alloc => "AllocEnd"
    case Timeout => "TimeoutEnd"
    case Stamp => "TimestampEnd"
    case Who => "])"
    case Total => "TotalEnd"
  }

  function ShapeOf(w: What): Shape {
    match w
    case Id => HexRun
    case Version => DigitRun
    case Final => WordRun
    case Alloc => Pair
    case Timeout => DigitRun
    case Stamp => DigitRun
    case Who => Rest
    case Total => Groups
  }

  function PatternOf(k: Kind, w: What): Pattern {
    Pattern(NameOf(k, w), TagOf(w), ShapeOf(w), CloseOf(w))
  }

  predicate IsAdjField(w: What) { w != Who && w != Total }

  predicate IsFundField(w: What) { w == Who || w == Total || w == Stamp }

  /** Conclude and Dispute events have six fields, Funded events three. */
  predicate Logged(k: Kind, w: What) {
    if k == Funded then IsFundField(w) else IsAdjField(w)
  }

  // ---- Printing ----

  function AdjBody(r: Record, w: What): string
    requires IsAdjField(w)
  {
    match w
    case Id => HexEncode(r.id)
    case Version => Dec(r.version)
    case Final => PrintBool(r.finalized)
    case Alloc => Group(r.alloc0) + ", " + Group(r.alloc1)
    case Timeout => Dec(r.timeout)
    case Stamp => Dec(r.timestamp)
  }

  function FundBody(e: Funding, w: What): string
    requires IsFundField(w)
  {
    match w case Who => PrintBytes(e.who) case Total => Group(e.total) case Stamp => Dec(e.timestamp)
  }

  function MakeField(sep: string, k: Kind, w: What, body: string): Field {
    Field(sep, NameOf(k, w), TagOf(w), body, CloseOf(w))
  }

  const ADJ_FIELDS: seq<What> := [Id, Version, Final, Alloc, Timeout, Stamp]
  const FUND_FIELDS: seq<What> := [Who, Total, Stamp]

  function AdjFields(seps: seq<string>, k: Kind, r: Record, ws: seq<What>): seq<Field>
    requires |seps| == |ws| && forall w :: w in ws ==> IsAdjField(w)
  {
    if ws == [] then [] else [MakeField(seps[0], k, ws[0], AdjBody(r, ws[0]))] + AdjFields(seps[1..], k, r, ws[1..])
  }

  function FundFields(seps: seq<string>, e: Funding, ws: seq<What>): seq<Field>
    requires |seps| == |ws| && forall w :: w in ws ==> IsFundField(w)
  {
    if ws == [] then [] else [MakeField(seps[0], Funded, ws[0], FundBody(e, ws[0]))] + FundFields(seps[1..], e, ws[1..])
  }

  function ItemFields(i: Item): seq<Field> {
    match i
    case Adj(seps, k, r) => AdjFields(seps, k, r, ADJ_FIELDS)
    case Fund(seps, e) => FundFields(seps, e, FUND_FIELDS)
  }

  function LogFields(items: seq<Item>): seq<Field> {
    if items == [] then [] else ItemFields(items[0]) + LogFields(items[1..])
  }

  /** The printed log. */
  function LogText(items: seq<Item>, tail: string): string {
    Print(LogFields(items), tail)
  }

  /** Nothing but the fields contains a '='. The flag of a dispute or conclusion, whose pattern matches
      any word, is followed by something that does not continue a word. */
  predicate CleanItem(i: Item) {
    match i
    case Adj(seps, kind, _) => kind != Funded && NoEqualsIn(seps) && seps[3] != "" && !IsWord(seps[3][0])
    case Fund(seps, _) => NoEqualsIn(seps)
  }

  predicate NoEqualsIn(seps: seq<string>) {
    forall j :: 0 <= j < |seps| ==> NoEquals(seps[j])
  }

  predicate Clean(items: seq<Item>, tail: string) {
    NoEquals(tail) && forall i :: i in items ==> CleanItem(i)
  }

  // ---- The layout of the canister ----

  /** Something of its own before an event, and commas between its fields. */
  function Commas6(first: string): Seps6 { [first, ", ", ", ", ", ", ", ", ", "] }

  function Commas3(first: string): Seps3 { [first, ", ", ", "] }

  /** Logs in this layout are covered, whatever stands before an event, or nothing. */
  lemma CommasAreClean(first: string, k: Kind, r: Record, e: Funding)
    requires NoEquals(first) && k != Funded
    ensures CleanItem(Adj(Commas6(first), k, r)) && CleanItem(Fund(Commas3(first), e))
  {
  }

  // ---- The texts, spelled out ----

  lemma JoinsAll(sep: string, kind: string, word: string, tag: string, text: string, body: string, close: string)
    requires word + "=" + tag == text
    ensures (kind + word) + "=" + tag == kind + text
    ensures sep + (kind + word) + "=" + tag + body + close == sep + kind + text + body + close
  {
    assert (kind + word) + "=" + tag == kind + (word + "=" + tag);
    assert sep + (kind + word) + "=" + tag + body + close == sep + kind + (word + "=" + tag) + body + close;
  }

  lemma PlainName(k: Kind, w: What)
    requires w != Who
    ensures NameOf(k, w) == KindText(k) + Word(w)
  {
  }

  lemma Assembles(sep: string, k: Kind, w: What, body: string, text: string)
    requires w != Who && Word(w) + "=" + TagOf(w) == text
    ensures Prefix(PatternOf(k, w)) == KindText(k) + text
    ensures PrintField(MakeField(sep, k, w, body)) == sep + KindText(k) + text + body + CloseOf(w)
  {
    PlainName(k, w);
    JoinsAll(sep, KindText(k), Word(w), TagOf(w), text, body, CloseOf(w));
  }

  lemma KindsSpelled()
    ensures KindText(Conclude) == "Conclude" && KindText(Dispute) == "Dispute" && KindText(Funded) == "Funded"
  {
  }

  lemma IdSpelled(sep: string, k: Kind, r: Record)
    ensures Prefix(PatternOf(k, Id)) == KindText(k) + "_state=ChannelIDStart"
    ensures PatternOf(k, Id).shape == HexRun && PatternOf(k, Id).close == "ChannelIDEnd"
    ensures PrintField(MakeField(sep, k, Id, AdjBody(r, Id))) == sep + KindText(k) + "_state=ChannelIDStart" + HexEncode(r.id) + "ChannelIDEnd"
  {
    assert Word(Id) + "=" + TagOf(Id) == "_state=ChannelIDStart";
    Assembles(sep, k, Id, AdjBody(r, Id), "_state=ChannelIDStart");
  }

  lemma VersionSpelled(sep: string, k: Kind, r: Record)
    ensures Prefix(PatternOf(k, Version)) == KindText(k) + "_state=VersionStart"
    ensures PatternOf(k, Version).shape == DigitRun && PatternOf(k, Version).close == "VersionEnd"
    ensures PrintField(MakeField(sep, k, Version, AdjBody(r, Version))) == sep + KindText(k) + "_state=VersionStart" + Dec(r.version) + "VersionEnd"
  {
    assert Word(Version) + "=" + TagOf(Version) == "_state=VersionStart";
    Assembles(sep, k, Version, AdjBody(r, Version), "_state=VersionStart");
  }

  lemma FlagSpelled(sep: string, k: Kind, r: Record)
    ensures Prefix(PatternOf(k, Final)) == KindText(k) + "_timeout=FinalizedStart"
    ensures PatternOf(k, Final).shape == WordRun && PatternOf(k, Final).close == "FinalizedEnd"
    ensures PrintField(MakeField(sep, k, Final, AdjBody(r, Final))) == sep + KindText(k) + "_timeout=FinalizedStart" + (if r.finalized then "true" else "false") + "FinalizedEnd"
  {
    assert Word(Final) + "=" + TagOf(Final) == "_timeout=FinalizedStart";
    Assembles(sep, k, Final, AdjBody(r, Final), "_timeout=FinalizedStart");
  }

  lemma AllocationsSpelled(sep: string, k: Kind, r: Record)
    ensures Prefix(PatternOf(k, Alloc)) == KindText(k) + "_alloc=AllocStart"
    ensures PatternOf(k, Alloc).shape == Pair && PatternOf(k, Alloc).close == "AllocEnd"
    ensures PrintField(MakeField(sep, k, Alloc, AdjBody(r, Alloc))) == sep + KindText(k) + "_alloc=AllocStart" + (Group(r.alloc0) + ", " + Group(r.alloc1)) + "AllocEnd"
  {
    assert Word(Alloc) + "=" + TagOf(Alloc) == "_alloc=AllocStart";
    Assembles(sep, k, Alloc, AdjBody(r, Alloc), "_alloc=AllocStart");
  }

  lemma TimeoutSpelled(sep: string, k: Kind, r: Record)
    ensures Prefix(PatternOf(k, Timeout)) == KindText(k) + "_timeout=TimeoutStart"
    ensures PatternOf(k, Timeout).shape == DigitRun && PatternOf(k, Timeout).close == "TimeoutEnd"
    ensures PrintField(MakeField(sep, k, Timeout, AdjBody(r, Timeout))) == sep + KindText(k) + "_timeout=TimeoutStart" + Dec(r.timeout) + "TimeoutEnd"
  {
    assert Word(Timeout) + "=" + TagOf(Timeout) == "_timeout=TimeoutStart";
    Assembles(sep, k, Timeout, AdjBody(r, Timeout), "_timeout=TimeoutStart");
  }

  lemma TimestampSpelled(sep: string, k: Kind, r: Record)
    ensures Prefix(PatternOf(k, Stamp)) == KindText(k) + "_timestamp=TimestampStart"
    ensures PatternOf(k, Stamp).shape == DigitRun && PatternOf(k, Stamp).close == "TimestampEnd"
    ensures PrintField(MakeField(sep, k, Stamp, AdjBody(r, Stamp))) == sep + KindText(k) + "_timestamp=TimestampStart" + Dec(r.timestamp) + "TimestampEnd"
  {
    assert Word(Stamp) + "=" + TagOf(Stamp) == "_timestamp=TimestampStart";
    Assembles(sep, k, Stamp, AdjBody(r, Stamp), "_timestamp=TimestampStart");
  }

  lemma TotalSpelled(sep: string, e: Funding)
    ensures Prefix(PatternOf(Funded, Total)) == "Funded" + "_total=TotalStart"
    ensures PatternOf(Funded, Total).shape == Groups && PatternOf(Funded, Total).close == "TotalEnd"
    ensures PrintField(MakeField(sep, Funded, Total, FundBody(e, Total)))
         == sep + "Funded" + "_total=TotalStart" + Group(e.total) + "TotalEnd"
  {
    assert Word(Total) + "=" + TagOf(Total) == "_total=TotalStart";
    Assembles(sep, Funded, Total, FundBody(e, Total), "_total=TotalStart");
  }

  lemma PayerPrefix()
    ensures Word(Who) + "=" + TagOf(Who) == "_who=PublicKey(CompressedEdwardsY: ["
  {
  }

  lemma PayerSpelled(sep: string, e: Funding)
    ensures Prefix(PatternOf(Funded, Who)) == "Funded event: Funded" + "_who=PublicKey(CompressedEdwardsY: ["
    ensures PatternOf(Funded, Who).shape == Rest && PatternOf(Funded, Who).close == "])"
    ensures PrintField(MakeField(sep, Funded, Who, FundBody(e, Who)))
         == sep + "Funded event: Funded" + "_who=PublicKey(CompressedEdwardsY: [" + PrintBytes(e.who) + "])"
  {
    var kind := "Funded event: " + KindText(Funded);
    assert kind == "Funded event: Funded";
    PayerPrefix();
    JoinsAll(sep, kind, Word(Who), TagOf(Who), "_who=PublicKey(CompressedEdwardsY: [", PrintBytes(e.who), "])");
  }

  // ---- The patterns tell the fields apart ----

  lemma NoEqualsConcat(x: string, y: string)
    requires NoEquals(x) && NoEquals(y)
    ensures NoEquals(x + y)
  {
  }

  lemma KindHasNoEquals(k: Kind)
    ensures NoEquals(KindText(k))
  {
  }

  lemma WordHasNoEquals(w: What)
    ensures NoEquals(Word(w))
  {
  }

  lemma TagHasNoEquals(w: What)
    ensures NoEquals(TagOf(w))
  {
  }

  lemma CloseHasNoEquals(w: What)
    ensures NoEquals(CloseOf(w))
  {
  }

  lemma NameHasNoEquals(k: Kind, w: What)
    ensures NoEquals(NameOf(k, w))
  {
    KindHasNoEquals(k);
    WordHasNoEquals(w);
    NoEqualsConcat(KindText(k), Word(w));
    NoEqualsConcat("Funded event: ", KindText(k));
    NoEqualsConcat("Funded event: " + KindText(k), Word(w));
  }

  lemma PatternIsGood(k: Kind, w: What)
    ensures GoodPattern(PatternOf(k, w))
  {
    NameHasNoEquals(k, w);
    TagHasNoEquals(w);
    CloseHasNoEquals(w);
  }

  lemma LastCharsDiffer(x: string, y: string, k: nat)
    requires k < |x| && k < |y| && x[|x| - 1 - k] != y[|y| - 1 - k]
    ensures !EndsWith(x, y) && !EndsWith(y, x)
  {
    if EndsWith(x, y) { SuffixChar(x, y, k); }
    if EndsWith(y, x) { SuffixChar(y, x, k); }
  }

  lemma SuffixChar(x: string, y: string, k: nat)
    requires k < |y| && EndsWith(x, y)
    ensures x[|x| - 1 - k] == y[|y| - 1 - k]
  {
    assert x[|x| - |y|..][|y| - 1 - k] == y[|y| - 1 - k];
  }

  lemma FirstCharsDiffer(x: string, y: string)
    requires x != "" && y != "" && x[0] != y[0]
    ensures !StartsWith(x, y) && !StartsWith(y, x)
  {
    if StartsWith(x, y) { PrefixChar(x, y); }
    if StartsWith(y, x) { PrefixChar(y, x); }
  }

  lemma PrefixChar(x: string, y: string)
    requires y != "" && StartsWith(x, y)
    ensures x[0] == y[0]
  {
    assert x[..|y|][0] == y[0];
  }

  function LastOfWord(w: What): char {
    match w
    case Id => 'e'
    case Version => 'e'
    case Final => 't'
    case Alloc => 'c'
    case Timeout => 't'
    case Stamp => 'p'
    case Who => 'o'
    case Total => 'l'
  }

  function FrontOf(w: What): string {
    if w == Who then "Funded event: " else ""
  }

  /** A name is what stands in front, the kind, and a word. */
  lemma NameSplits(k: Kind, w: What)
    ensures NameOf(k, w) == FrontOf(w) + KindText(k) + Word(w)
  {
  }

  lemma LastLetters(k: Kind, w: What)
    ensures Word(w) != "" && Word(w)[|Word(w)| - 1] == LastOfWord(w) && |KindText(k)| >= 2
  {
  }

  /** Names whose words end differently. */
  lemma ApartByWord(front: string, word: string, front': string, word': string)
    requires word != "" && word' != "" && word[|word| - 1] != word'[|word'| - 1]
    ensures !EndsWith(front + word, front' + word') && !EndsWith(front' + word', front + word)
  {
    LastCharsDiffer(front + word, front' + word', 0);
  }

  /** Names with the same word whose kinds differ in the d-th letter from their end. */
  lemma ApartByKind(front: string, kind: string, front': string, kind': string, word: string, d: nat)
    requires d < |kind| && d < |kind'| && kind[|kind| - 1 - d] != kind'[|kind'| - 1 - d]
    ensures !EndsWith(front + kind + word, front' + kind' + word) && !EndsWith(front' + kind' + word, front + kind + word)
  {
    var x, y := front + kind + word, front' + kind' + word;
    assert x[|x| - 1 - (|word| + d)] == kind[|kind| - 1 - d];
    assert y[|y| - 1 - (|word| + d)] == kind'[|kind'| - 1 - d];
    LastCharsDiffer(x, y, |word| + d);
  }

  lemma WordsByLast(w: What, w': What)
    ensures LastOfWord(w) == LastOfWord(w') <==> Word(w) == Word(w')
  {
    assert Word(w)[|Word(w)| - 1] == LastOfWord(w) && Word(w')[|Word(w')| - 1] == LastOfWord(w');
  }

  /** The d-th letter from the end of a kind. */
  function KindLetter(k: Kind, d: nat): char
    requires d < 2
  {
    KindText(k)[|KindText(k)| - 1 - d]
  }

  lemma KindsDiffer(k: Kind, k': Kind) returns (d: nat)
    requires k != k'
    ensures d < 2 && KindLetter(k, d) != KindLetter(k', d)
  {
    d := if KindLetter(k, 0) != KindLetter(k', 0) then 0 else 1;
  }

  lemma KindNamesDiffer(k: Kind, w: What, k': Kind, w': What)
    requires Word(w) == Word(w') && k != k'
    ensures !EndsWith(NameOf(k, w), NameOf(k', w')) && !EndsWith(NameOf(k', w'), NameOf(k, w))
  {
    var d := KindsDiffer(k, k');
    LastLetters(k, w);
    LastLetters(k', w');
    NameSplits(k, w);
    NameSplits(k', w');
    ApartByKind(FrontOf(w), KindText(k), FrontOf(w'), KindText(k'), Word(w), d);
  }

  lemma WordNamesDiffer(k: Kind, w: What, k': Kind, w': What)
    requires LastOfWord(w) != LastOfWord(w')
    ensures !EndsWith(NameOf(k, w), NameOf(k', w')) && !EndsWith(NameOf(k', w'), NameOf(k, w))
  {
    LastLetters(k, w);
    LastLetters(k', w');
    NameSplits(k, w);
    NameSplits(k', w');
    ApartByWord(FrontOf(w) + KindText(k), Word(w), FrontOf(w') + KindText(k'), Word(w'));
  }

  /** Fields with different words end differently; the kinds differ one or two letters before. */
  lemma NamesDiffer(k: Kind, w: What, k': Kind, w': What)
    requires Word(w) != Word(w') || k != k'
    ensures !EndsWith(NameOf(k, w), NameOf(k', w')) && !EndsWith(NameOf(k', w'), NameOf(k, w))
  {
    WordsByLast(w, w');
    if Word(w) == Word(w') {
      KindNamesDiffer(k, w, k', w');
    } else {
      WordNamesDiffer(k, w, k', w');
    }
  }

  lemma OtherFieldSeparable(k: Kind, w: What, sep: string, k': Kind, w': What, body: string)
    requires k != k' || w != w'
    ensures Separable(PatternOf(k, w), MakeField(sep, k', w', body))
    ensures !Matches(PatternOf(k, w), MakeField(sep, k', w', body))
  {
    if Word(w) != Word(w') || k != k' {
      NamesDiffer(k, w, k', w');
      assert NameOf(k, w) == NameOf(k', w') ==> EndsWith(NameOf(k, w), NameOf(k', w'));
    } else {
      FirstCharsDiffer(TagOf(w), TagOf(w'));
    }
  }

  // ---- Bodies are what the patterns expect ----

  predicate InRange(r: Record) {
    1000 <= r.alloc0 < 1_000_000 && 1000 <= r.alloc1 < 1_000_000
  }

  lemma {:induction false} PrintBytesChars(b: seq<byte>)
    ensures forall i :: 0 <= i < |PrintBytes(b)| ==>
      IsDigit(PrintBytes(b)[i]) || PrintBytes(b)[i] == ',' || PrintBytes(b)[i] == ' '
  {
    if b != [] {
      DecValue(b[0]);
      if |b| > 1 { PrintBytesChars(b[1..]); }
    }
  }

  lemma PairFits(a: string, b: string)
    requires Grouped(a) && Grouped(b)
    ensures forall i :: 0 <= i < |a + ", " + b| ==> InCharset(Pair, (a + ", " + b)[i])
    ensures Fits(Pair, a + ", " + b) <==> OneUnderscore(a) && OneUnderscore(b)
  {
    var s := a + ", " + b;
    GroupedChars(a);
    GroupedChars(b);
    assert s[..|a|] == a && s[|a| + 2..] == b && s[|a|] == ',' && s[|a| + 1] == ' ';
    assert forall i :: 0 <= i < |s| && s[i] == ',' ==> i == |a|;
  }

  /** Every printed body uses its pattern's characters; it fits, except for allocations out of range. */
  lemma AdjBodyFits(r: Record, w: What)
    requires IsAdjField(w)
    ensures forall i :: 0 <= i < |AdjBody(r, w)| ==> InCharset(ShapeOf(w), AdjBody(r, w)[i])
    ensures Fits(ShapeOf(w), AdjBody(r, w)) <==> (w == Alloc ==> InRange(r))
  {
    match w
    case Id =>
    case Version => DecValue(r.version);
    case Final =>
    case Alloc =>
      GroupIsGrouped(r.alloc0);
      GroupIsGrouped(r.alloc1);
      PairFits(Group(r.alloc0), Group(r.alloc1));
      OneUnderscoreRange(r.alloc0);
      OneUnderscoreRange(r.alloc1);
    case Timeout => DecValue(r.timeout);
    case Stamp => DecValue(r.timestamp);
  }

  lemma FundBodyFits(e: Funding, w: What)
    requires IsFundField(w)
    ensures forall i :: 0 <= i < |FundBody(e, w)| ==> InCharset(ShapeOf(w), FundBody(e, w)[i]) && FundBody(e, w)[i] != '='
    ensures Fits(ShapeOf(w), FundBody(e, w))
  {
    match w
    case Who => PrintBytesChars(e.who);
    case Total =>
      GroupIsGrouped(e.total);
      GroupedChars(Group(e.total));
    case Stamp => DecValue(e.timestamp);
  }

  lemma FieldIsGood(sep: string, k: Kind, w: What, body: string)
    requires NoEquals(sep)
    requires forall i :: 0 <= i < |body| ==> InCharset(ShapeOf(w), body[i]) && body[i] != '='
    ensures GoodField(MakeField(sep, k, w, body))
    ensures Separable(PatternOf(k, w), MakeField(sep, k, w, body))
  {
    NameHasNoEquals(k, w);
    TagHasNoEquals(w);
    CloseHasNoEquals(w);
  }

  // ---- What a pattern finds in a log ----

  function RecordsOf(k: Kind, items: seq<Item>): seq<Record> {
    if items == [] then []
    else (if items[0].Adj? && items[0].kind == k then [items[0].rec] else []) + RecordsOf(k, items[1..])
  }

  function FundingsOf(items: seq<Item>): seq<Funding> {
    if items == [] then []
    else (if items[0].Fund? then [items[0].ev] else []) + FundingsOf(items[1..])
  }

  /** The printed values of one field; the pattern for allocations overlooks those out of range. */
  function AdjBodies(w: What, recs: seq<Record>): seq<string>
    requires IsAdjField(w)
  {
    if recs == [] then []
    else (if w == Alloc ==> InRange(recs[0]) then [AdjBody(recs[0], w)] else []) + AdjBodies(w, recs[1..])
  }

  function FundBodies(w: What, evs: seq<Funding>): seq<string>
    requires IsFundField(w)
  {
    if evs == [] then [] else [FundBody(evs[0], w)] + FundBodies(w, evs[1..])
  }

  ghost predicate GoodFor(p: Pattern, fields: seq<Field>) {
    forall f :: f in fields ==> GoodField(f) && Separable(p, f)
  }

  lemma {:induction false} CapturesConcat(p: Pattern, a: seq<Field>, b: seq<Field>)
    ensures Captures(p, a + b) == Captures(p, a) + Captures(p, b)
  {
    if a == [] {
      assert a + b == b;
    } else {
      CapturesConcat(p, a[1..], b);
      assert (a + b)[1..] == a[1..] + b;
    }
  }

  /** One field against one pattern: only the pattern's own field is captured. */
  lemma OneField(k: Kind, w: What, sep: string, k': Kind, w': What, body: string)
    requires NoEquals(sep)
    requires forall i :: 0 <= i < |body| ==> InCharset(ShapeOf(w'), body[i]) && body[i] != '='
    ensures var f := MakeField(sep, k', w', body);
            && GoodField(f) && Separable(PatternOf(k, w), f)
            && (Matches(PatternOf(k, w), f) <==> k == k' && w == w' && Fits(ShapeOf(w), body))
  {
    FieldIsGood(sep, k', w', body);
    if k != k' || w != w' {
      OtherFieldSeparable(k, w, sep, k', w', body);
    }
  }

  /** All that a pattern has to do with a field: it may be taken for its own or not. */
  predicate Handles(p: Pattern, f: Field, own: bool) {
    GoodField(f) && Separable(p, f) && (Matches(p, f) <==> own)
  }

  lemma {:induction false} CapturesOnly(p: Pattern, fields: seq<Field>, m: int)
    requires -1 <= m < |fields| && forall i :: 0 <= i < |fields| ==> Handles(p, fields[i], i == m)
    ensures GoodFor(p, fields)
    ensures Captures(p, fields) == if m >= 0 then [fields[m].body] else []
  {
    if fields != [] {
      assert Handles(p, fields[0], 0 == m);
      forall i | 0 <= i < |fields| - 1 && m != 0 ensures Handles(p, fields[1..][i], i == m - 1) {
        assert Handles(p, fields[i + 1], i + 1 == m);
      }
      forall i | 0 <= i < |fields| - 1 && m == 0 ensures Handles(p, fields[1..][i], i == -1) {
        assert Handles(p, fields[i + 1], i + 1 == m);
      }
      CapturesOnly(p, fields[1..], if m <= 0 then -1 else m - 1);
    }
  }

  lemma {:induction false} AdjFieldsAre(seps: seq<string>, k: Kind, r: Record, ws: seq<What>)
    requires |seps| == |ws| && forall w :: w in ws ==> IsAdjField(w)
    ensures |AdjFields(seps, k, r, ws)| == |ws|
    ensures forall i :: 0 <= i < |ws| ==> AdjFields(seps, k, r, ws)[i] == MakeField(seps[i], k, ws[i], AdjBody(r, ws[i]))
  {
    if ws != [] {
      AdjFieldsAre(seps[1..], k, r, ws[1..]);
    }
  }

  lemma {:induction false} FundFieldsAre(seps: seq<string>, e: Funding, ws: seq<What>)
    requires |seps| == |ws| && forall w :: w in ws ==> IsFundField(w)
    ensures |FundFields(seps, e, ws)| == |ws|
    ensures forall i :: 0 <= i < |ws| ==> FundFields(seps, e, ws)[i] == MakeField(seps[i], Funded, ws[i], FundBody(e, ws[i]))
  {
    if ws != [] {
      FundFieldsAre(seps[1..], e, ws[1..]);
    }
  }

  lemma AdjField(k: Kind, w: What, sep: string, k': Kind, r: Record, w': What)
    requires NoEquals(sep) && IsAdjField(w')
    ensures Handles(PatternOf(k, w), MakeField(sep, k', w', AdjBody(r, w')), k == k' && w == w' && (w == Alloc ==> InRange(r)))
  {
    AdjBodyFits(r, w');
    OneField(k, w, sep, k', w', AdjBody(r, w'));
  }

  lemma FundField(k: Kind, w: What, sep: string, e: Funding, w': What)
    requires NoEquals(sep) && IsFundField(w')
    ensures Handles(PatternOf(k, w), MakeField(sep, Funded, w', FundBody(e, w')), k == Funded && w == w')
  {
    FundBodyFits(e, w');
    OneField(k, w, sep, Funded, w', FundBody(e, w'));
  }

  /** The place of `w`, which is listed at most once; -1 if it does not count. */
  lemma PlaceOf(w: What, ws: seq<What>, counts: bool) returns (m: int)
    requires forall i, j :: 0 <= i < j < |ws| ==> ws[i] != ws[j]
    ensures -1 <= m < |ws| && (m >= 0 <==> w in ws && counts)
    ensures forall i :: 0 <= i < |ws| ==> (i == m <==> ws[i] == w && counts)
  {
    m := -1;
    if w in ws && counts {
      m :| 0 <= m < |ws| && ws[m] == w;
    }
  }

  lemma AdjItem(k: Kind, w: What, seps: seq<string>, k': Kind, r: Record, ws: seq<What>)
    requires |seps| == |ws| && NoEqualsIn(seps)
    requires forall w :: w in ws ==> IsAdjField(w)
    requires forall i, j :: 0 <= i < j < |ws| ==> ws[i] != ws[j]
    ensures GoodFor(PatternOf(k, w), AdjFields(seps, k', r, ws))
    ensures Captures(PatternOf(k, w), AdjFields(seps, k', r, ws))
         == if k == k' && w in ws && (w == Alloc ==> InRange(r)) then [AdjBody(r, w)] else []
  {
    var p, fields := PatternOf(k, w), AdjFields(seps, k', r, ws);
    AdjFieldsAre(seps, k', r, ws);
    var m := PlaceOf(w, ws, k == k' && (w == Alloc ==> InRange(r)));
    forall i | 0 <= i < |ws| ensures Handles(p, fields[i], i == m) {
      AdjField(k, w, seps[i], k', r, ws[i]);
    }
    CapturesOnly(p, fields, m);
  }

  lemma FundItem(k: Kind, w: What, seps: seq<string>, e: Funding, ws: seq<What>)
    requires |seps| == |ws| && NoEqualsIn(seps)
    requires forall w :: w in ws ==> IsFundField(w)
    requires forall i, j :: 0 <= i < j < |ws| ==> ws[i] != ws[j]
    ensures GoodFor(PatternOf(k, w), FundFields(seps, e, ws))
    ensures Captures(PatternOf(k, w), FundFields(seps, e, ws)) == if k == Funded && w in ws then [FundBody(e, w)] else []
  {
    var p, fields := PatternOf(k, w), FundFields(seps, e, ws);
    FundFieldsAre(seps, e, ws);
    var m := PlaceOf(w, ws, k == Funded);
    forall i | 0 <= i < |ws| ensures Handles(p, fields[i], i == m) {
      FundField(k, w, seps[i], e, ws[i]);
    }
    CapturesOnly(p, fields, m);
  }

  // ---- Words end where their fields end ----

  lemma {:induction false} PrintConcat(a: seq<Field>, b: seq<Field>, tail: string)
    ensures Print(a + b, tail) == Print(a, Print(b, tail))
  {
    if a == [] {
      assert a + b == b;
    } else {
      PrintConcat(a[1..], b, tail);
      assert (a + b)[1..] == a[1..] + b;
    }
  }

  lemma {:induction false} PartedConcat(p: Pattern, a: seq<Field>, b: seq<Field>, tail: string)
    requires Parted(p, a, Print(b, tail)) && Parted(p, b, tail)
    ensures Parted(p, a + b, tail)
  {
    if a == [] {
      assert a + b == b;
    } else {
      PartedConcat(p, a[1..], b, tail);
      PrintConcat(a[1..], b, tail);
      assert (a + b)[1..] == a[1..] + b;
    }
  }

  /** Only the flag is matched by a word pattern. */
  lemma OnlyFlagsAreWords(k: Kind, w: What, sep: string, k': Kind, w': What, body: string, rest: string)
    requires w' == Final ==> Breaks(rest)
    ensures Ends(PatternOf(k, w), MakeField(sep, k', w', body), rest)
  {
    if ShapeOf(w) == WordRun && w' != Final {
      FirstCharsDiffer(TagOf(w'), TagOf(Final));
      assert StartsWith(TagOf(w'), TagOf(w'));
    }
  }

  lemma {:induction false} AdjParted(k: Kind, w: What, seps: seq<string>, k': Kind, r: Record, ws: seq<What>, rest: string)
    requires |seps| == |ws| && forall w :: w in ws ==> IsAdjField(w)
    requires forall j :: 0 <= j < |ws| && ws[j] == Final ==> j + 1 < |ws| && seps[j + 1] != "" && !IsWord(seps[j + 1][0])
    ensures Parted(PatternOf(k, w), AdjFields(seps, k', r, ws), rest)
  {
    if ws != [] {
      var after := Print(AdjFields(seps[1..], k', r, ws[1..]), rest);
      if ws[0] == Final {
        assert after[0] == seps[1][0];
      }
      OnlyFlagsAreWords(k, w, seps[0], k', ws[0], AdjBody(r, ws[0]), after);
      AdjParted(k, w, seps[1..], k', r, ws[1..], rest);
    }
  }

  lemma {:induction false} FundParted(k: Kind, w: What, seps: seq<string>, e: Funding, ws: seq<What>, rest: string)
    requires |seps| == |ws| && forall w :: w in ws ==> IsFundField(w)
    ensures Parted(PatternOf(k, w), FundFields(seps, e, ws), rest)
  {
    if ws != [] {
      OnlyFlagsAreWords(k, w, seps[0], Funded, ws[0], FundBody(e, ws[0]), Print(FundFields(seps[1..], e, ws[1..]), rest));
      FundParted(k, w, seps[1..], e, ws[1..], rest);
    }
  }

  lemma {:induction false} LogIsParted(k: Kind, w: What, items: seq<Item>, tail: string)
    requires Clean(items, tail)
    ensures Parted(PatternOf(k, w), LogFields(items), tail)
  {
    if items != [] {
      FieldLists();
      LogIsParted(k, w, items[1..], tail);
      assert CleanItem(items[0]);
      var rest := Print(LogFields(items[1..]), tail);
      match items[0] {
        case Adj(seps, k', r) => AdjParted(k, w, seps, k', r, ADJ_FIELDS, rest);
        case Fund(seps, e) => FundParted(k, w, seps, e, FUND_FIELDS, rest);
      }
      PartedConcat(PatternOf(k, w), ItemFields(items[0]), LogFields(items[1..]), tail);
    }
  }

  lemma FieldLists()
    ensures forall w :: w in ADJ_FIELDS <==> IsAdjField(w)
    ensures forall w :: w in FUND_FIELDS <==> IsFundField(w)
    ensures forall i, j :: 0 <= i < j < |ADJ_FIELDS| ==> ADJ_FIELDS[i] != ADJ_FIELDS[j]
    ensures |ADJ_FIELDS| == 6 && forall j :: 0 <= j < 6 && ADJ_FIELDS[j] == Final ==> j == 2
    ensures forall i, j :: 0 <= i < j < |FUND_FIELDS| ==> FUND_FIELDS[i] != FUND_FIELDS[j]
  {
    assert ADJ_FIELDS[0] == Id && ADJ_FIELDS[1] == Version && ADJ_FIELDS[2] == Final;
    assert ADJ_FIELDS[3] == Alloc && ADJ_FIELDS[4] == Timeout && ADJ_FIELDS[5] == Stamp;
    assert FUND_FIELDS[0] == Who && FUND_FIELDS[1] == Total && FUND_FIELDS[2] == Stamp;
  }

  function ItemBodies(k: Kind, w: What, i: Item): seq<string> {
    match i
    case Adj(_, k', r) => if k == k' && IsAdjField(w) && (w == Alloc ==> InRange(r)) then [AdjBody(r, w)] else []
    case Fund(_, e) => if k == Funded && IsFundField(w) then [FundBody(e, w)] else []
  }

  /** What the pattern for (k, w) captures of one event. */
  lemma ItemCaptures(k: Kind, w: What, i: Item)
    requires CleanItem(i)
    ensures GoodFor(PatternOf(k, w), ItemFields(i))
    ensures Captures(PatternOf(k, w), ItemFields(i)) == ItemBodies(k, w, i)
  {
    FieldLists();
    match i
    case Adj(seps, k', r) => AdjItem(k, w, seps, k', r, ADJ_FIELDS);
    case Fund(seps, e) => FundItem(k, w, seps, e, FUND_FIELDS);
  }

  lemma GoodForConcat(p: Pattern, a: seq<Field>, b: seq<Field>)
    requires GoodFor(p, a) && GoodFor(p, b)
    ensures GoodFor(p, a + b)
  {
  }

  lemma AdjBodiesFirst(w: What, r: Record, rest: seq<Record>)
    requires IsAdjField(w)
    ensures AdjBodies(w, [r] + rest) == (if w == Alloc ==> InRange(r) then [AdjBody(r, w)] else []) + AdjBodies(w, rest)
  {
    assert ([r] + rest)[0] == r && ([r] + rest)[1..] == rest;
  }

  lemma FundBodiesFirst(w: What, e: Funding, rest: seq<Funding>)
    requires IsFundField(w)
    ensures FundBodies(w, [e] + rest) == [FundBody(e, w)] + FundBodies(w, rest)
  {
    assert ([e] + rest)[0] == e && ([e] + rest)[1..] == rest;
  }

  lemma OwnRecord(k: Kind, w: What, items: seq<Item>)
    requires items != [] && k != Funded && IsAdjField(w) && items[0].Adj? && items[0].kind == k
    ensures RecordsOf(k, items) == [items[0].rec] + RecordsOf(k, items[1..])
    ensures ItemBodies(k, w, items[0]) == if w == Alloc ==> InRange(items[0].rec) then [AdjBody(items[0].rec, w)] else []
  {
  }

  lemma OtherItem(k: Kind, w: What, items: seq<Item>)
    requires items != [] && k != Funded && IsAdjField(w) && !(items[0].Adj? && items[0].kind == k)
    ensures RecordsOf(k, items) == RecordsOf(k, items[1..]) && ItemBodies(k, w, items[0]) == []
  {
    assert [] + RecordsOf(k, items[1..]) == RecordsOf(k, items[1..]);
  }

  lemma AdjBodiesStep(k: Kind, w: What, items: seq<Item>)
    requires items != [] && k != Funded && IsAdjField(w)
    ensures AdjBodies(w, RecordsOf(k, items)) == ItemBodies(k, w, items[0]) + AdjBodies(w, RecordsOf(k, items[1..]))
  {
    var rest := RecordsOf(k, items[1..]);
    if items[0].Adj? && items[0].kind == k {
      OwnRecord(k, w, items);
      AdjBodiesFirst(w, items[0].rec, rest);
    } else {
      OtherItem(k, w, items);
      assert [] + AdjBodies(w, rest) == AdjBodies(w, rest);
    }
  }

  lemma FundBodiesStep(w: What, items: seq<Item>)
    requires items != [] && IsFundField(w)
    requires items[0].Adj? ==> items[0].kind != Funded
    ensures FundBodies(w, FundingsOf(items)) == ItemBodies(Funded, w, items[0]) + FundBodies(w, FundingsOf(items[1..]))
  {
    var rest := FundingsOf(items[1..]);
    if items[0].Fund? {
      FundBodiesFirst(w, items[0].ev, rest);
    } else {
      assert FundingsOf(items) == [] + rest == rest;
    }
  }

  lemma {:induction false} AdjCaptures(k: Kind, w: What, items: seq<Item>, tail: string)
    requires Clean(items, tail) && k != Funded && Logged(k, w)
    ensures GoodFor(PatternOf(k, w), LogFields(items))
    ensures Captures(PatternOf(k, w), LogFields(items)) == AdjBodies(w, RecordsOf(k, items))
  {
    if items != [] {
      var p, i := PatternOf(k, w), items[0];
      AdjCaptures(k, w, items[1..], tail);
      ItemCaptures(k, w, i);
      CapturesConcat(p, ItemFields(i), LogFields(items[1..]));
      GoodForConcat(p, ItemFields(i), LogFields(items[1..]));
      AdjBodiesStep(k, w, items);
    }
  }

  lemma {:induction false} FundCaptures(w: What, items: seq<Item>, tail: string)
    requires Clean(items, tail) && Logged(Funded, w)
    ensures GoodFor(PatternOf(Funded, w), LogFields(items))
    ensures Captures(PatternOf(Funded, w), LogFields(items)) == FundBodies(w, FundingsOf(items))
  {
    if items != [] {
      var p, i := PatternOf(Funded, w), items[0];
      FundCaptures(w, items[1..], tail);
      ItemCaptures(Funded, w, i);
      CapturesConcat(p, ItemFields(i), LogFields(items[1..]));
      GoodForConcat(p, ItemFields(i), LogFields(items[1..]));
      FundBodiesStep(w, items);
    }
  }

  /** In a log that mixes disputes, conclusions and fundings, each adjudicator pattern finds exactly
      its own field of its own kind of record, in order. */
  lemma FindAdjField(k: Kind, w: What, items: seq<Item>, tail: string)
    requires Clean(items, tail) && k != Funded && Logged(k, w)
    ensures FindAll(PatternOf(k, w), LogText(items, tail)) == AdjBodies(w, RecordsOf(k, items))
  {
    AdjCaptures(k, w, items, tail);
    PatternIsGood(k, w);
    LogIsParted(k, w, items, tail);
    FindAllPrinted(PatternOf(k, w), "", LogFields(items), tail);
    assert "" + LogText(items, tail) == LogText(items, tail);
  }

  /** And each funding pattern exactly its own field of the fundings. */
  lemma FindFundField(w: What, items: seq<Item>, tail: string)
    requires Clean(items, tail) && Logged(Funded, w)
    ensures FindAll(PatternOf(Funded, w), LogText(items, tail)) == FundBodies(w, FundingsOf(items))
  {
    FundCaptures(w, items, tail);
    PatternIsGood(Funded, w);
    LogIsParted(Funded, w, items, tail);
    FindAllPrinted(PatternOf(Funded, w), "", LogFields(items), tail);
    assert "" + LogText(items, tail) == LogText(items, tail);
  }
}
