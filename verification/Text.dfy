/** Numbers, flags and byte strings as text: what strconv and encoding/hex do for the log parsers,
    and the printers that they undo. */
module Text {
  import opened Bytes

  predicate IsDigit(c: char) { '0' <= c <= '9' }
  predicate IsLowerHex(c: char) { 'a' <= c <= 'f' }
  predicate IsUpperHex(c: char) { 'A' <= c <= 'F' }
  predicate IsHex(c: char) { IsDigit(c) || IsLowerHex(c) || IsUpperHex(c) }
  predicate IsWord(c: char) { IsDigit(c) || 'a' <= c <= 'z' || 'A' <= c <= 'Z' || c == '_' }

  predicate Digits(s: string) {
    |s| > 0 && forall i :: 0 <= i < |s| ==> IsDigit(s[i])
  }

  // ---- Decimal numbers ----

  function DigitChar(d: nat): (c: char)
    requires d < 10
    ensures IsDigit(c) && DigitOf(c) == d
  {
    '0' + d as char
  }

  function DigitOf(c: char): nat
    requires IsDigit(c)
  {
    (c - '0') as nat
  }

  function Dec(n: nat): string {
    if n < 10 then [DigitChar(n)] else Dec(n / 10) + [DigitChar(n % 10)]
  }

  function DigitsValue(s: string): nat
    requires forall i :: 0 <= i < |s| ==> IsDigit(s[i])
  {
    if s == "" then 0 else 10 * DigitsValue(s[..|s| - 1]) + DigitOf(s[|s| - 1])
  }

  /** strconv.ParseUint(s, 10, 64). */
  function ParseUint(s: string): Option<uint64> {
    if Digits(s) && DigitsValue(s) < TWO64 then Some(DigitsValue(s)) else None
  }

  lemma {:induction false} DecValue(n: nat)
    ensures Digits(Dec(n)) && DigitsValue(Dec(n)) == n
  {
    if n < 10 {
      assert [DigitChar(n)][..0] == "";
    } else {
      DecValue(n / 10);
      assert Dec(n)[..|Dec(n)| - 1] == Dec(n / 10);
    }
  }

  /** strconv.ParseBool. */
  function ParseBool(s: string): Option<bool> {
    if s in ["1", "t", "T", "true", "TRUE", "True"] then Some(true)
    else if s in ["0", "f", "F", "false", "FALSE", "False"] then Some(false)
    else None
  }

  function PrintBool(b: bool): string {
    if b then "true" else "false"
  }

  lemma ParsePrintBool(b: bool)
    ensures ParseBool(PrintBool(b)) == Some(b)
  {
    assert ["1", "t", "T", "true", "TRUE", "True"][3] == "true";
    assert ["0", "f", "F", "false", "FALSE", "False"][3] == "false";
    assert "false"[0] == 'f' && |"false"| == 5;
  }

  // ---- Numbers grouped by underscores ----

  function Pad3(m: nat): (s: string)
    requires m < 1000
    ensures |s| == 3 && Digits(s)
  {
    [DigitChar(m / 100), DigitChar(m / 10 % 10), DigitChar(m % 10)]
  }

  function Group(n: nat): string {
    if n < 1000 then Dec(n) else Group(n / 1000) + "_" + Pad3(n % 1000)
  }

  /** strings.ReplaceAll(s, "_", ""). */
  function Strip(s: string): string {
    if s == "" then "" else Strip(s[..|s| - 1]) + (if s[|s| - 1] == '_' then "" else [s[|s| - 1]])
  }

  lemma {:induction false} StripConcat(a: string, b: string)
    ensures Strip(a + b) == Strip(a) + Strip(b)
  {
    if b == "" {
      assert a + b == a;
    } else {
      StripConcat(a, b[..|b| - 1]);
      assert (a + b)[..|a + b| - 1] == a + b[..|b| - 1];
    }
  }

  lemma {:induction false} StripDigits(s: string)
    requires forall i :: 0 <= i < |s| ==> IsDigit(s[i])
    ensures Strip(s) == s
  {
    if s != "" {
      StripDigits(s[..|s| - 1]);
    }
  }

  lemma AppendDigit(s: string, c: char)
    requires (forall i :: 0 <= i < |s| ==> IsDigit(s[i])) && IsDigit(c)
    ensures DigitsValue(s + [c]) == 10 * DigitsValue(s) + DigitOf(c)
  {
    assert (s + [c])[..|s|] == s;
  }

  lemma ThreeDigits(m: nat)
    requires m < 1000
    ensures m == 100 * (m / 100) + 10 * (m / 10 % 10) + m % 10
  {
    assert m / 10 / 10 == m / 100;
  }

  lemma AppendPad3(s: string, m: nat)
    requires Digits(s) && m < 1000
    ensures DigitsValue(s + Pad3(m)) == 1000 * DigitsValue(s) + m
  {
    var c := Pad3(m);
    ThreeDigits(m);
    AppendDigit(s, c[0]);
    AppendDigit(s + [c[0]], c[1]);
    AppendDigit(s + [c[0]] + [c[1]], c[2]);
    assert s + c == s + [c[0]] + [c[1]] + [c[2]];
  }

  /** Removing the underscores gives back the number. */
  lemma {:induction false} StripGroup(n: nat)
    ensures Digits(Strip(Group(n))) && DigitsValue(Strip(Group(n))) == n
  {
    if n < 1000 {
      DecValue(n);
      StripDigits(Dec(n));
    } else {
      StripGroup(n / 1000);
      var g, p := Group(n / 1000), Pad3(n % 1000);
      StripConcat(g + "_", p);
      StripConcat(g, "_");
      assert Strip("_") == "" by { assert "_"[..0] == ""; }
      StripDigits(p);
      assert Strip(Group(n)) == Strip(g) + p;
      AppendPad3(Strip(g), n % 1000);
    }
  }

  /** The regular expression \d+_\d+. */
  predicate OneUnderscore(s: string) {
    exists i :: 0 <= i < |s| && s[i] == '_' && Digits(s[..i]) && Digits(s[i + 1..])
  }

  /** The regular expression \d+(_\d+)*. */
  predicate Grouped(s: string) {
    Digits(s) || exists i :: 0 <= i < |s| && s[i] == '_' && Grouped(s[..i]) && Digits(s[i + 1..])
  }

  lemma {:induction false} GroupIsGrouped(n: nat)
    ensures Grouped(Group(n))
  {
    if n < 1000 {
      DecValue(n);
    } else {
      GroupIsGrouped(n / 1000);
      var g, s := Group(n / 1000), Group(n);
      assert s[|g|] == '_' && s[..|g|] == g && s[|g| + 1..] == Pad3(n % 1000);
    }
  }

  /** The log pattern for allocations accepts the usual grouping of exactly 1_000 to 999_999. */
  lemma OneUnderscoreRange(n: nat)
    ensures OneUnderscore(Group(n)) <==> 1000 <= n < 1_000_000
  {
    var s := Group(n);
    if n < 1000 {
      DecValue(n);
    } else {
      var g := Group(n / 1000);
      assert s[|g|] == '_' && s[..|g|] == g && s[|g| + 1..] == Pad3(n % 1000);
      if n < 1_000_000 {
        DecValue(n / 1000);
      } else {
        var h := Group(n / 1000 / 1000);
        assert g[|h|] == '_' && s[|h|] == '_';
      }
    }
  }

  // ---- Hexadecimal ----

  function HexChar(d: nat): (c: char)
    requires d < 16
    ensures IsHex(c) && HexOf(c) == d
  {
    if d < 10 then '0' + d as char else 'a' + (d - 10) as char
  }

  function HexOf(c: char): (d: nat)
    requires IsHex(c)
    ensures d < 16
  {
    if IsDigit(c) then (c - '0') as nat else if IsLowerHex(c) then (c - 'a') as nat + 10 else (c - 'A') as nat + 10
  }

  function HexEncode(b: seq<byte>): (s: string)
    ensures |s| == 2 * |b| && forall i :: 0 <= i < |s| ==> IsHex(s[i])
  {
    if b == [] then "" else [HexChar(b[0] / 16), HexChar(b[0] % 16)] + HexEncode(b[1..])
  }

  /** hex.DecodeString: None for an odd length or a character that is no hex digit. */
  function HexDecode(s: string): Option<seq<byte>> {
    if s == "" then Some([])
    else if |s| < 2 || !IsHex(s[0]) || !IsHex(s[1]) then None
    else
      match HexDecode(s[2..])
      case None => None
      case Some(b) => Some([16 * HexOf(s[0]) + HexOf(s[1])] + b)
  }

  lemma {:induction false} HexRoundTrip(b: seq<byte>)
    ensures HexDecode(HexEncode(b)) == Some(b)
  {
    if b != [] {
      HexRoundTrip(b[1..]);
      var s := HexEncode(b);
      assert s[2..] == HexEncode(b[1..]) && s[0] == HexChar(b[0] / 16) && s[1] == HexChar(b[0] % 16);
      assert [b[0]] + b[1..] == b;
    }
  }

  // ---- Lists of byte values ----

  function PrintBytes(b: seq<byte>): string {
    if b == [] then "" else if |b| == 1 then Dec(b[0]) else Dec(b[0]) + ", " + PrintBytes(b[1..])
  }

  /** How many digits `s` starts with. */
  function RunLength(s: string): (n: nat)
    ensures n <= |s|
    ensures forall i :: 0 <= i < n ==> IsDigit(s[i])
    ensures n < |s| ==> !IsDigit(s[n])
  {
    if s == "" || !IsDigit(s[0]) then 0 else 1 + RunLength(s[1..])
  }

  /** All matches of \d+. */
  function DigitRuns(s: string): (r: seq<string>)
    ensures forall i :: 0 <= i < |r| ==> Digits(r[i])
    decreases |s|
  {
    if s == "" then []
    else if !IsDigit(s[0]) then DigitRuns(s[1..])
    else [s[..RunLength(s)]] + DigitRuns(s[RunLength(s)..])
  }

  const MAX_INT := 0x7fff_ffff_ffff_ffff

  /** byte(v) for v from strconv.Atoi, whose range error is ignored and leaves the largest int. */
  function AtoiByte(s: string): (b: byte)
    requires Digits(s)
    ensures DigitsValue(s) < 256 ==> b == DigitsValue(s)
    ensures DigitsValue(s) >= 0x8000_0000_0000_0000 ==> b == 255
  {
    (if DigitsValue(s) > MAX_INT then MAX_INT else DigitsValue(s)) % 256
  }

  function ExtractBytes(s: string): seq<byte> {
    var runs := DigitRuns(s);
    seq(|runs|, i requires 0 <= i < |runs| => AtoiByte(runs[i]))
  }

  lemma RunEnds(d: string, rest: string)
    requires Digits(d) && (rest != "" ==> !IsDigit(rest[0]))
    ensures RunLength(d + rest) == |d|
  {
    assert forall i :: 0 <= i < |d| ==> (d + rest)[i] == d[i];
    assert rest != "" ==> (d + rest)[|d|] == rest[0];
  }

  /** The first run of a digit string that something else follows. */
  lemma FirstRun(d: string, rest: string)
    requires Digits(d) && (rest != "" ==> !IsDigit(rest[0]))
    ensures DigitRuns(d + rest) == [d] + DigitRuns(rest)
  {
    RunEnds(d, rest);
    assert (d + rest)[0] == d[0] && (d + rest)[..|d|] == d && (d + rest)[|d|..] == rest;
  }

  lemma SkipSeparator(s: string)
    ensures DigitRuns(", " + s) == DigitRuns(s)
  {
    assert (", " + s)[1..] == " " + s;
    assert (" " + s)[1..] == s;
  }

  lemma RunsOfMore(b: seq<byte>)
    requires b != []
    ensures DigitRuns(PrintBytes(b)) == [Dec(b[0])] + DigitRuns(PrintBytes(b[1..]))
  {
    var d, rest := Dec(b[0]), PrintBytes(b[1..]);
    DecValue(b[0]);
    if |b| == 1 {
      assert b[1..] == [] && d + "" == d;
      FirstRun(d, "");
    } else {
      assert d + ", " + rest == d + (", " + rest);
      FirstRun(d, ", " + rest);
      SkipSeparator(rest);
    }
  }

  lemma {:induction false} RunsOfPrinted(b: seq<byte>)
    ensures |DigitRuns(PrintBytes(b))| == |b|
    ensures forall i :: 0 <= i < |b| ==> DigitRuns(PrintBytes(b))[i] == Dec(b[i])
  {
    if b != [] {
      RunsOfMore(b);
      RunsOfPrinted(b[1..]);
    }
  }

  lemma ByteParses(v: byte)
    ensures Digits(Dec(v)) && AtoiByte(Dec(v)) == v
  {
    DecValue(v);
  }

  /** The byte list inside a logged public key reads back as the bytes. */
  lemma ExtractPrinted(b: seq<byte>)
    ensures ExtractBytes(PrintBytes(b)) == b
  {
    var runs := DigitRuns(PrintBytes(b));
    RunsOfPrinted(b);
    forall i | 0 <= i < |b| ensures AtoiByte(runs[i]) == b[i] {
      ByteParses(b[i]);
    }
  }

  // ---- Spelled out ----

  /** The most significant digit comes first. */
  lemma DecimalSpelled()
    ensures Dec(120) == "120" && DigitsValue("120") == 120
  {
    assert Dec(1) == "1";
    assert Dec(12) == Dec(1) + "2";
    assert Dec(120) == Dec(12) + "0";
    DecValue(120);
  }

  lemma GroupSpelled()
    ensures Group(1234567) == "1_234_567"
  {
    assert Group(1) == "1" && Group(1234) == Group(1) + "_" + Pad3(234);
    assert Pad3(234) == "234" && Pad3(567) == "567";
  }

  /** The upper half of a byte comes first, and either case is read. */
  lemma HexSpelled()
    ensures HexEncode([0x1a]) == "1a"
    ensures HexDecode("1A") == HexDecode("1a") == Some([0x1a])
  {
    assert [0x1a][1..] == [] && HexEncode([]) == "";
    HexOfOne('1', 'A');
    HexOfOne('1', 'a');
  }

  lemma HexOfOne(c: char, d: char)
    requires IsHex(c) && IsHex(d)
    ensures HexDecode([c, d]) == Some([16 * HexOf(c) + HexOf(d)])
  {
    var v := [16 * HexOf(c) + HexOf(d)];
    assert [c, d][2..] == "" && HexDecode("") == Some([]) && v + [] == v;
  }

  lemma BytesSpelled()
    ensures PrintBytes([7, 20]) == "7, 20"
  {
    assert [7, 20][1..] == [20] && PrintBytes([20]) == Dec(20) && PrintBytes([7, 20]) == Dec(7) + ", " + Dec(20);
    assert Dec(20) == Dec(2) + "0" && Dec(2) == "2" && Dec(7) == "7";
  }
}
