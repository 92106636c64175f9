/** The regular expressions of the log parsers: a fixed prefix with one '=', a captured body, and a
    closing marker. FindAll is regexp.FindAllStringSubmatch for them: leftmost, non-overlapping. */
module Matcher {
  import opened Bytes
  import opened Text

  /** The captured part: [a-fA-F0-9]+, \d+, \w+, (\d+_\d+), (\d+_\d+), \d+(?:_\d+)*? or .*? */
  datatype Shape = HexRun | DigitRun | WordRun | Pair | Groups | Rest

  datatype Pattern = Pattern(name: string, tag: string, shape: Shape, close: string)

  predicate Fits(shape: Shape, s: string) {
    match shape
    case HexRun => |s| > 0 && forall i :: 0 <= i < |s| ==> IsHex(s[i])
    case DigitRun => Digits(s)
    case WordRun => |s| > 0 && forall i :: 0 <= i < |s| ==> IsWord(s[i])
    case Pair => exists i :: 0 <= i < |s| - 1 && s[i] == ',' && s[i + 1] == ' ' && OneUnderscore(s[..i]) && OneUnderscore(s[i + 2..])
    case Groups => Grouped(s)
    case Rest => forall i :: 0 <= i < |s| ==> s[i] != '\n'
  }

  predicate StartsWith(s: string, p: string) {
    |p| <= |s| && s[..|p|] == p
  }

  predicate EndsWith(s: string, p: string) {
    |p| <= |s| && s[|s| - |p|..] == p
  }

  function Prefix(p: Pattern): string {
    p.name + "=" + p.tag
  }

  /** The body may end at `e`, for text that starts right after the prefix. */
  predicate IsCut(p: Pattern, s: string, e: nat) {
    e <= |s| && Fits(p.shape, s[..e]) && StartsWith(s[e..], p.close)
  }

  /** A lazy body ends at the first possible place, a greedy one at the last. */
  function ChooseCut(p: Pattern, s: string): Option<nat> {
    if p.shape == Rest then FirstCut(p, s, 0) else LastCut(p, s, |s|)
  }

  function FirstCut(p: Pattern, s: string, e: nat): (r: Option<nat>)
    requires e <= |s|
    ensures r.Some? ==> IsCut(p, s, r.value)
    decreases |s| - e
  {
    if IsCut(p, s, e) then Some(e) else if e == |s| then None else FirstCut(p, s, e + 1)
  }

  function LastCut(p: Pattern, s: string, e: nat): (r: Option<nat>)
    requires e <= |s|
    ensures r.Some? ==> IsCut(p, s, r.value)
  {
    if IsCut(p, s, e) then Some(e) else if e == 0 then None else LastCut(p, s, e - 1)
  }

  /** The end of the body of a match that starts at the beginning of `s`. */
  function MatchHere(p: Pattern, s: string): (r: Option<nat>)
    ensures r.Some? ==> StartsWith(s, Prefix(p)) && IsCut(p, s[|Prefix(p)|..], r.value)
  {
    if StartsWith(s, Prefix(p)) then ChooseCut(p, s[|Prefix(p)|..]) else None
  }

  function FindAll(p: Pattern, s: string): seq<string>
    decreases |s|
  {
    if s == "" then []
    else
      match MatchHere(p, s)
      case None => FindAll(p, s[1..])
      case Some(e) =>
        var t := s[|Prefix(p)|..];
        [t[..e]] + FindAll(p, t[e + |p.close|..])
  }

  // ---- The text that the patterns are written for ----

  /** One logged value: a separator, the pattern's prefix, the value and the closing marker. */
  datatype Field = Field(sep: string, name: string, tag: string, body: string, close: string)

  function PrintField(f: Field): string {
    f.sep + f.name + "=" + f.tag + f.body + f.close
  }

  function Print(fields: seq<Field>, tail: string): string {
    if fields == [] then tail else PrintField(fields[0]) + Print(fields[1..], tail)
  }

  predicate NoEquals(s: string) { '=' !in s }

  /** Text that ends a word: nothing, or a character that \w does not match. */
  predicate Breaks(s: string) { s == "" || !IsWord(s[0]) }

  predicate InCharset(shape: Shape, c: char) {
    match shape
    case HexRun => IsHex(c)
    case DigitRun => IsDigit(c)
    case WordRun => IsWord(c)
    case Pair => IsDigit(c) || c == '_' || c == ',' || c == ' '
    case Groups => IsDigit(c) || c == '_'
    case Rest => c != '\n' && c != ']'
  }

  /** The closing marker cannot be taken for a part of the body. */
  predicate GoodPattern(p: Pattern) {
    && NoEquals(p.name) && NoEquals(p.tag) && NoEquals(p.close) && |p.close| > 0
    && match p.shape
       case HexRun => |p.close| > 1 && !IsHex(p.close[1]) && p.close[1] != p.close[0]
       case WordRun => forall i :: 0 <= i < |p.close| ==> IsWord(p.close[i])
       case Rest => p.close[0] == ']'
       case _ => !InCharset(p.shape, p.close[0])
  }

  predicate GoodField(f: Field) {
    NoEquals(f.sep) && NoEquals(f.name) && NoEquals(f.tag) && NoEquals(f.body) && NoEquals(f.close)
  }

  /** The field is the pattern's own, or their prefixes cannot be confused. */
  predicate Separable(p: Pattern, f: Field) {
    || (f.name == p.name && f.tag == p.tag && f.close == p.close && forall i :: 0 <= i < |f.body| ==> InCharset(p.shape, f.body[i]))
    || (!EndsWith(f.name, p.name) && !EndsWith(p.name, f.name))
    || (f.name == p.name && !StartsWith(f.tag, p.tag) && !StartsWith(p.tag, f.tag))
  }

  /** The text after a body that is a word does not continue the word. */
  predicate Ends(p: Pattern, f: Field, rest: string) {
    p.shape == WordRun && f.name == p.name && f.tag == p.tag ==> Breaks(rest)
  }

  predicate Parted(p: Pattern, fields: seq<Field>, tail: string) {
    fields != [] ==> Ends(p, fields[0], Print(fields[1..], tail)) && Parted(p, fields[1..], tail)
  }

  predicate Matches(p: Pattern, f: Field) {
    f.name == p.name && f.tag == p.tag && Fits(p.shape, f.body)
  }

  function Captures(p: Pattern, fields: seq<Field>): seq<string> {
    if fields == [] then []
    else (if Matches(p, fields[0]) then [fields[0].body] else []) + Captures(p, fields[1..])
  }

  // ---- Where a body ends ----

  lemma PairCharsAt(s: string, k: nat)
    requires k < |s| - 1 && s[k] == ',' && s[k + 1] == ' '
    requires forall c :: c in s[..k] || c in s[k + 2..] ==> IsDigit(c) || c == '_'
    ensures forall i :: 0 <= i < |s| ==> InCharset(Pair, s[i])
  {
    forall i | 0 <= i < |s| ensures InCharset(Pair, s[i]) {
      if i < k {
        assert s[..k][i] in s[..k];
      } else if i > k + 1 {
        assert s[k + 2..][i - k - 2] in s[k + 2..];
      }
    }
  }

  lemma PairChars(s: string)
    requires Fits(Pair, s)
    ensures forall i :: 0 <= i < |s| ==> InCharset(Pair, s[i])
  {
    var k :| 0 <= k < |s| - 1 && s[k] == ',' && s[k + 1] == ' ' && OneUnderscore(s[..k]) && OneUnderscore(s[k + 2..]);
    OneUnderscoreChars(s[..k]);
    OneUnderscoreChars(s[k + 2..]);
    PairCharsAt(s, k);
  }

  lemma FitsInCharset(shape: Shape, s: string)
    requires Fits(shape, s) && shape != Rest
    ensures forall i :: 0 <= i < |s| ==> InCharset(shape, s[i])
  {
    match shape
    case Pair => PairChars(s);
    case Groups => GroupedChars(s);
    case _ =>
  }

  lemma OneUnderscoreChars(s: string)
    requires OneUnderscore(s)
    ensures forall i :: 0 <= i < |s| ==> IsDigit(s[i]) || s[i] == '_'
  {
    var k :| 0 <= k < |s| && s[k] == '_' && Digits(s[..k]) && Digits(s[k + 1..]);
    forall i | 0 <= i < |s| ensures IsDigit(s[i]) || s[i] == '_' {
      if i < k { assert s[i] == s[..k][i]; }
      if i > k { assert s[i] == s[k + 1..][i - k - 1]; }
    }
  }

  lemma {:induction false} GroupedChars(s: string)
    requires Grouped(s)
    ensures forall i :: 0 <= i < |s| ==> IsDigit(s[i]) || s[i] == '_'
  {
    if !Digits(s) {
      var k :| 0 <= k < |s| && s[k] == '_' && Grouped(s[..k]) && Digits(s[k + 1..]);
      GroupedChars(s[..k]);
      forall i | 0 <= i < |s| ensures IsDigit(s[i]) || s[i] == '_' {
        if i < k { assert s[i] == s[..k][i]; }
        if i > k { assert s[i] == s[k + 1..][i - k - 1]; }
      }
    }
  }

  /** What a cut says about single characters. */
  lemma CutChars(p: Pattern, s: string, e: nat)
    requires IsCut(p, s, e)
    ensures p.shape != Rest ==> forall j :: 0 <= j < e ==> InCharset(p.shape, s[j])
    ensures e + |p.close| <= |s| && forall j :: e <= j < e + |p.close| ==> s[j] == p.close[j - e]
  {
    if p.shape != Rest {
      FitsInCharset(p.shape, s[..e]);
      assert forall j :: 0 <= j < e ==> s[j] == s[..e][j];
    }
    assert forall j :: e <= j < e + |p.close| ==> s[j] == s[e..][..|p.close|][j - e];
  }

  /** No cut beyond the printed body. */
  lemma NoLaterCut(p: Pattern, body: string, after: string, e: nat)
    requires GoodPattern(p) && p.shape != Rest && (p.shape == WordRun ==> Breaks(after))
    requires IsCut(p, body + p.close + after, e)
    ensures e <= |body|
  {
    var s, n := body + p.close + after, |body| + |p.close|;
    assert after != "" ==> s[n] == after[0];
    assert s[|body|] == p.close[0];
    assert p.shape == HexRun ==> s[|body| + 1] == p.close[1];
    CutChars(p, s, e);
  }

  /** No cut inside the printed body. */
  lemma NoEarlierCut(p: Pattern, body: string, after: string, e: nat)
    requires GoodPattern(p) && p.shape != HexRun && p.shape != WordRun
    requires forall i :: 0 <= i < |body| ==> InCharset(p.shape, body[i])
    requires IsCut(p, body + p.close + after, e)
    ensures e >= |body|
  {
    var s := body + p.close + after;
    assert forall i :: 0 <= i < |body| ==> s[i] == body[i];
    CutChars(p, s, e);
    assert s[e] == p.close[0];
  }

  lemma {:induction false} LastCutIs(p: Pattern, s: string, from: nat, e: nat)
    requires e <= from <= |s| && IsCut(p, s, e)
    requires forall k: nat :: e < k <= from ==> !IsCut(p, s, k)
    ensures LastCut(p, s, from) == Some(e)
  {
    if from > e {
      LastCutIs(p, s, from - 1, e);
    }
  }

  lemma {:induction false} FirstCutIs(p: Pattern, s: string, from: nat, e: nat)
    requires from <= e <= |s| && IsCut(p, s, e)
    requires forall k: nat :: from <= k < e ==> !IsCut(p, s, k)
    ensures FirstCut(p, s, from) == Some(e)
    decreases e - from
  {
    if from < e {
      FirstCutIs(p, s, from + 1, e);
    }
  }

  /** Both kinds of body end where the printed one does, or nowhere if it does not fit. */
  lemma CutIsPrinted(p: Pattern, body: string, after: string)
    requires GoodPattern(p) && (p.shape == WordRun ==> Breaks(after))
    requires forall i :: 0 <= i < |body| ==> InCharset(p.shape, body[i])
    ensures ChooseCut(p, body + p.close + after) == if Fits(p.shape, body) then Some(|body|) else None
  {
    var s := body + p.close + after;
    assert s[..|body|] == body && s[|body|..] == p.close + after;
    assert StartsWith(p.close + after, p.close);
    if p.shape == Rest {
      forall k: nat | IsCut(p, s, k) ensures k >= |body| { NoEarlierCut(p, body, after, k); }
      FirstCutIs(p, s, 0, |body|);
    } else {
      forall k: nat | IsCut(p, s, k) ensures k <= |body| { NoLaterCut(p, body, after, k); }
      if p.shape != HexRun && p.shape != WordRun {
        forall k: nat | IsCut(p, s, k) ensures k >= |body| { NoEarlierCut(p, body, after, k); }
      }
      if Fits(p.shape, body) {
        LastCutIs(p, s, |s|, |body|);
      }
    }
  }

  // ---- Where a match starts ----

  lemma PrefixAt(s: string, x: nat, p: string)
    requires x <= |s| && StartsWith(s[x..], p)
    ensures x + |p| <= |s| && s[x..x + |p|] == p
  {
    assert s[x..][..|p|] == s[x..x + |p|];
  }

  /** In `a + "=" + b` a prefix can only start so that its '=' falls on the first one of the text. */
  lemma PrefixMeetsEquals(a: string, b: string, name: string, tag: string, x: nat)
    requires NoEquals(a) && NoEquals(name) && x <= |a|
    requires StartsWith((a + "=" + b)[x..], name + "=" + tag)
    ensures x + |name| == |a| && a[x..] == name && StartsWith(b, tag)
  {
    var s, p := a + "=" + b, name + "=" + tag;
    PrefixAt(s, x, p);
    EqualsLinesUp(a, b, name, tag, x);
    assert a[x..] == s[x..|a|] == p[..|name|] == name;
    assert b[..|tag|] == s[|a| + 1..|a| + 1 + |tag|] == p[|name| + 1..] == tag;
  }

  lemma EqualsLinesUp(a: string, b: string, name: string, tag: string, x: nat)
    requires NoEquals(a) && NoEquals(name) && x <= |a|
    requires var s, p := a + "=" + b, name + "=" + tag; x + |p| <= |s| && s[x..x + |p|] == p
    ensures x + |name| == |a|
  {
    var s, p := a + "=" + b, name + "=" + tag;
    assert s[x + |name|] == s[x..x + |p|][|name|] == p[|name|] == '=';
    assert forall i :: 0 <= i < |a| ==> s[i] == a[i];
    assert forall k :: 0 <= k < |name| ==> s[x + k] == s[x..x + |p|][k] == p[k] == name[k];
    assert s[|a|] == s[x + (|a| - x)] == '=';
  }

  lemma PrefixHasEquals(p: Pattern, s: string)
    requires StartsWith(s, Prefix(p))
    ensures !NoEquals(s)
  {
    assert s[|p.name|] == s[..|Prefix(p)|][|p.name|] == '=';
  }

  /** Skipping positions at which nothing matches. */
  lemma {:induction false} Skip(p: Pattern, s: string, k: nat)
    requires k <= |s| && forall x: nat :: x < k ==> MatchHere(p, s[x..]) == None
    ensures FindAll(p, s) == FindAll(p, s[k..])
    decreases k
  {
    if k == 0 {
      assert s[0..] == s;
    } else {
      Skip(p, s, k - 1);
      assert s[k - 1..][1..] == s[k..];
    }
  }

  lemma {:induction false} NothingWithoutEquals(p: Pattern, s: string)
    requires NoEquals(s)
    ensures FindAll(p, s) == []
  {
    if s != "" {
      if StartsWith(s, Prefix(p)) { PrefixHasEquals(p, s); }
      NothingWithoutEquals(p, s[1..]);
    }
  }

  /** The part of a printed field before its '=' and the part after it. */
  lemma FieldSplits(left: string, f: Field, rest: string)
    ensures left + (PrintField(f) + rest) == (left + f.sep + f.name) + "=" + (f.tag + (f.body + f.close + rest))
  {
  }

  lemma MatchAtStart(p: Pattern, body: string, rest: string)
    requires GoodPattern(p) && (p.shape == WordRun ==> Breaks(rest)) && Fits(p.shape, body)
    requires forall i :: 0 <= i < |body| ==> InCharset(p.shape, body[i])
    ensures FindAll(p, Prefix(p) + (body + p.close + rest)) == [body] + FindAll(p, rest)
  {
    var m := body + p.close + rest;
    var s := Prefix(p) + m;
    assert s[..|Prefix(p)|] == Prefix(p) && s[|Prefix(p)|..] == m;
    CutIsPrinted(p, body, rest);
    assert m[..|body|] == body && m[|body| + |p.close|..] == rest;
  }

  lemma SkipToName(p: Pattern, left: string, b: string)
    requires NoEquals(left) && NoEquals(p.name)
    ensures FindAll(p, (left + p.name) + "=" + b) == FindAll(p, p.name + "=" + b)
  {
    var a, k := left + p.name, |left|;
    var s := a + "=" + b;
    forall x: nat | x < k ensures MatchHere(p, s[x..]) == None {
      if StartsWith(s[x..], Prefix(p)) { PrefixMeetsEquals(a, b, p.name, p.tag, x); }
    }
    Skip(p, s, k);
    assert s[k..] == p.name + "=" + b;
  }

  lemma TailSplits(f: Field, rest: string)
    requires GoodField(f)
    ensures f.tag + (f.body + f.close + rest) == (f.tag + f.body + f.close) + rest
    ensures NoEquals(f.tag + f.body + f.close)
  {
  }

  lemma PrefixJoins(p: Pattern, m: string)
    ensures p.name + "=" + (p.tag + m) == Prefix(p) + m
  {
  }

  /** A field that the pattern matches contributes its body, and the search goes on behind it. */
  lemma MatchedField(p: Pattern, left: string, f: Field, rest: string)
    requires GoodPattern(p) && GoodField(f) && NoEquals(left) && Ends(p, f, rest)
    requires Separable(p, f) && Matches(p, f)
    ensures FindAll(p, left + (PrintField(f) + rest)) == [f.body] + FindAll(p, rest)
  {
    SameFieldSameClose(p, f);
    var m := f.body + p.close + rest;
    calc {
      FindAll(p, left + (PrintField(f) + rest));
      { FieldSplits(left, f, rest); }
      FindAll(p, ((left + f.sep) + p.name) + "=" + (p.tag + m));
      { SkipToName(p, left + f.sep, p.tag + m); }
      FindAll(p, p.name + "=" + (p.tag + m));
      { PrefixJoins(p, m); }
      FindAll(p, Prefix(p) + m);
      { MatchAtStart(p, f.body, rest); }
      [f.body] + FindAll(p, rest);
    }
  }

  lemma SameFieldSameClose(p: Pattern, f: Field)
    requires Separable(p, f) && f.name == p.name && f.tag == p.tag
    ensures f.close == p.close && forall i :: 0 <= i < |f.body| ==> InCharset(p.shape, f.body[i])
  {
    assert EndsWith(f.name, p.name);
    assert StartsWith(f.tag, p.tag);
  }

  /** If no match starts where a prefix could, the text is passed over up to and including its '='. */
  lemma SkipPastEquals(p: Pattern, a: string, b: string)
    requires NoEquals(a) && NoEquals(p.name)
    requires EndsWith(a, p.name) && StartsWith(b, p.tag) ==> ChooseCut(p, b[|p.tag|..]) == None
    ensures FindAll(p, a + "=" + b) == FindAll(p, b)
  {
    var s := a + "=" + b;
    forall x: nat | x < |a| + 1 ensures MatchHere(p, s[x..]) == None {
      if StartsWith(s[x..], Prefix(p)) {
        PrefixMeetsEquals(a, b, p.name, p.tag, x);
        assert s[x..][|Prefix(p)|..] == b[|p.tag|..];
      }
    }
    Skip(p, s, |a| + 1);
    assert s[|a| + 1..] == b;
  }

  /** A field that the pattern does not match is passed over up to and including its '='. */
  lemma PassedField(p: Pattern, left: string, f: Field, rest: string)
    requires GoodPattern(p) && GoodField(f) && NoEquals(left) && Ends(p, f, rest)
    requires Separable(p, f) && !Matches(p, f)
    ensures FindAll(p, left + (PrintField(f) + rest)) == FindAll(p, f.tag + (f.body + f.close + rest))
  {
    var a, b := left + f.sep + f.name, f.tag + (f.body + f.close + rest);
    if EndsWith(a, p.name) && StartsWith(b, p.tag) {
      NotHere(p, left + f.sep, f, rest);
    }
    FieldSplits(left, f, rest);
    SkipPastEquals(p, a, b);
  }

  /** Where the names and tags line up, only the body can be the reason for not matching. */
  lemma NotHere(p: Pattern, left: string, f: Field, rest: string)
    requires GoodPattern(p) && Separable(p, f) && !Matches(p, f) && Ends(p, f, rest)
    requires EndsWith(left + f.name, p.name) && StartsWith(f.tag + (f.body + f.close + rest), p.tag)
    ensures ChooseCut(p, (f.tag + (f.body + f.close + rest))[|p.tag|..]) == None
  {
    var b := f.tag + (f.body + f.close + rest);
    SuffixesNest(left, f.name, p.name);
    PrefixesNest(f.tag, f.body + f.close + rest, p.tag);
    if f.name == p.name && f.tag == p.tag {
      SameFieldSameClose(p, f);
      assert b[|p.tag|..] == f.body + p.close + rest;
      CutIsPrinted(p, f.body, rest);
    }
  }

  lemma SuffixesNest(left: string, x: string, y: string)
    requires EndsWith(left + x, y)
    ensures EndsWith(x, y) || EndsWith(y, x)
  {
    var s := left + x;
    if |y| <= |x| {
      assert x[|x| - |y|..] == s[|s| - |y|..];
    } else {
      assert y[|y| - |x|..] == s[|s| - |y|..][|y| - |x|..] == s[|s| - |x|..] == x;
    }
  }

  lemma PrefixesNest(x: string, right: string, y: string)
    requires StartsWith(x + right, y)
    ensures StartsWith(x, y) || StartsWith(y, x)
  {
    var s := x + right;
    if |y| <= |x| {
      assert x[..|y|] == s[..|y|];
    } else {
      assert y[..|x|] == s[..|y|][..|x|] == s[..|x|] == x;
    }
  }

  /** Searching a printed log for a pattern gives the bodies of the fields that it matches, in order,
      whatever other fields stand between them, and whatever text without '=' is printed before each. */
  lemma {:induction false} FindAllPrinted(p: Pattern, left: string, fields: seq<Field>, tail: string)
    requires GoodPattern(p) && NoEquals(left) && NoEquals(tail) && Parted(p, fields, tail)
    requires forall f :: f in fields ==> GoodField(f) && Separable(p, f)
    ensures FindAll(p, left + Print(fields, tail)) == Captures(p, fields)
    decreases fields
  {
    if fields == [] {
      NothingWithoutEquals(p, left + tail);
    } else {
      var f, rest := fields[0], Print(fields[1..], tail);
      if Matches(p, f) {
        MatchedField(p, left, f, rest);
        FindAllPrinted(p, "", fields[1..], tail);
        assert "" + rest == rest;
      } else {
        PassedField(p, left, f, rest);
        TailSplits(f, rest);
        FindAllPrinted(p, f.tag + f.body + f.close, fields[1..], tail);
        assert [] + Captures(p, fields[1..]) == Captures(p, fields[1..]);
      }
    }
  }
}
