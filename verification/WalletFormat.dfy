/** The wallet file: what FsWallet.save writes and FsWallet.load reads. */
module WalletFormat {
  import opened Bytes

  const SEED_LEN := 24
  const HEADER_LEN := 36
  const ENTRY_LEN := 44

  type Seed = s: seq<byte> | |s| == SEED_LEN witness seq(SEED_LEN, _ => 0)
  type Address = Bytes32

  /** The durable part of an open account; its key is derived again from the nonce. */
  datatype Entry = Entry(nonce: uint64, useCount: uint32)

  /** A wallet without its key arrays: what a file can hold. */
  datatype Image = Image(seed: Seed, latest: uint64, table: map<Address, Entry>)

  /** `order` lists every key of the table once: one possible iteration order of a Go map. */
  ghost predicate Enumerates(order: seq<Address>, table: map<Address, Entry>) {
    && (forall a :: a in order <==> a in table)
    && (forall i, j :: 0 <= i < j < |order| ==> order[i] != order[j])
  }

  function EncodeEntry(a: Address, e: Entry): (b: seq<byte>)
    ensures |b| == ENTRY_LEN
  {
    a + LeBytes(8, e.nonce) + LeBytes(4, e.useCount)
  }

  function EncodeEntries(order: seq<Address>, table: map<Address, Entry>): (b: seq<byte>)
    requires forall a :: a in order ==> a in table
    ensures |b| == ENTRY_LEN * |order|
  {
    if order == [] then [] else EncodeEntry(order[0], table[order[0]]) + EncodeEntries(order[1..], table)
  }

  /** The entry count is truncated to 32 bits, as `uint32(len(w.openAccs))` is. */
  function EncodeHeader(seed: Seed, latest: uint64, count: nat): (b: seq<byte>)
    ensures |b| == HEADER_LEN
  {
    seed + LeBytes(8, latest) + LeBytes(4, count % TWO32)
  }

  function Encode(m: Image, order: seq<Address>): (b: seq<byte>)
    requires forall a :: a in order ==> a in m.table
    ensures |b| == HEADER_LEN + ENTRY_LEN * |order|
  {
    EncodeHeader(m.seed, m.latest, |order|) + EncodeEntries(order, m.table)
  }

  function DecodeEntries(b: seq<byte>, n: nat, table: map<Address, Entry>): Option<map<Address, Entry>>
    decreases n
  {
    if n == 0 then Some(table)
    else if |b| < ENTRY_LEN then None
    else
      Widths();
      LeValueBound(b[32..40]);
      LeValueBound(b[40..44]);
      DecodeEntries(b[ENTRY_LEN..], n - 1, table[b[..32] := Entry(LeValue(b[32..40]), LeValue(b[40..44]))])
  }

  /** None stands for the read error of a file that ends too early. */
  function Decode(f: seq<byte>): Option<Image> {
    if |f| < HEADER_LEN then None
    else
      Widths();
      LeValueBound(f[24..32]);
      match DecodeEntries(f[HEADER_LEN..], LeValue(f[32..36]), map[])
      case None => None
      case Some(t) => Some(Image(f[..24], LeValue(f[24..32]), t))
  }

  function Restrict(table: map<Address, Entry>, order: seq<Address>): map<Address, Entry> {
    map a | a in order && a in table :: table[a]
  }

  lemma EncodeEntryParts(a: Address, e: Entry, rest: seq<byte>)
    ensures var b := EncodeEntry(a, e) + rest;
            && b[..32] == a && b[ENTRY_LEN..] == rest
            && LeValue(b[32..40]) == e.nonce && LeValue(b[40..44]) == e.useCount
  {
    var b := EncodeEntry(a, e) + rest;
    assert b[32..40] == LeBytes(8, e.nonce);
    assert b[40..44] == LeBytes(4, e.useCount);
    Le64RoundTrip(e.nonce);
    Le32RoundTrip(e.useCount);
  }

  /** Reading one written entry adds it to the table. */
  lemma DecodeOneEntry(a: Address, e: Entry, rest: seq<byte>, n: nat, acc: map<Address, Entry>)
    requires n > 0
    ensures DecodeEntries(EncodeEntry(a, e) + rest, n, acc) == DecodeEntries(rest, n - 1, acc[a := e])
  {
    EncodeEntryParts(a, e, rest);
  }

  lemma RestrictFirst(table: map<Address, Entry>, order: seq<Address>, k: nat, acc: map<Address, Entry>)
    requires 0 < k <= |order| && order[0] in table
    ensures acc[order[0] := table[order[0]]] + Restrict(table, order[1..][..k - 1]) == acc + Restrict(table, order[..k])
  {
    assert order[..k] == [order[0]] + order[1..][..k - 1];
  }

  /** Reading k of the written entries gives back exactly the first k of them, whatever follows. */
  lemma {:induction false} DecodeEncodedEntries(
      order: seq<Address>, table: map<Address, Entry>, k: nat, acc: map<Address, Entry>, rest: seq<byte>)
    requires forall a :: a in order ==> a in table
    requires k <= |order|
    ensures DecodeEntries(EncodeEntries(order, table) + rest, k, acc) == Some(acc + Restrict(table, order[..k]))
  {
    if k == 0 {
      assert acc + Restrict(table, order[..0]) == acc;
    } else {
      var a, e := order[0], table[order[0]];
      var tail := EncodeEntries(order[1..], table) + rest;
      assert EncodeEntries(order, table) + rest == EncodeEntry(a, e) + tail;
      DecodeOneEntry(a, e, tail, k, acc);
      DecodeEncodedEntries(order[1..], table, k - 1, acc[a := e], rest);
      RestrictFirst(table, order, k, acc);
    }
  }

  lemma HeaderParts(seed: Seed, latest: uint64, count: nat, rest: seq<byte>)
    ensures var f := EncodeHeader(seed, latest, count) + rest;
            && f[..24] == seed && f[HEADER_LEN..] == rest
            && LeValue(f[24..32]) == latest && LeValue(f[32..36]) == count % TWO32
  {
    var f := EncodeHeader(seed, latest, count) + rest;
    assert f[24..32] == LeBytes(8, latest);
    assert f[32..36] == LeBytes(4, count % TWO32);
    Le64RoundTrip(latest);
    Le32RoundTrip(count % TWO32);
  }

  lemma {:induction false} EntryAt(order: seq<Address>, table: map<Address, Entry>, i: nat)
    requires (forall a :: a in order ==> a in table) && i < |order|
    ensures EncodeEntries(order, table)[ENTRY_LEN * i..ENTRY_LEN * i + ENTRY_LEN] == EncodeEntry(order[i], table[order[i]])
  {
    var b, rest := EncodeEntries(order, table), EncodeEntries(order[1..], table);
    assert b == EncodeEntry(order[0], table[order[0]]) + rest;
    if i > 0 {
      EntryAt(order[1..], table, i - 1);
      assert b[ENTRY_LEN * i..ENTRY_LEN * i + ENTRY_LEN] == rest[ENTRY_LEN * (i - 1)..ENTRY_LEN * (i - 1) + ENTRY_LEN];
    }
  }

  /** The bytes of the file: 24 of seed, 8 of counter, 4 of count, and for each entry 32 of address, 8 of
      nonce and 4 of use count, all numbers with their least significant byte first. */
  lemma FileLayout(m: Image, order: seq<Address>, i: nat)
    requires (forall a :: a in order ==> a in m.table) && i < |order|
    ensures var f, at := Encode(m, order), 36 + 44 * i;
            && |f| == 36 + 44 * |order|
            && f[..24] == m.seed && LeValue(f[24..32]) == m.latest && LeValue(f[32..36]) == |order| % 0x1_0000_0000
            && f[at..at + 32] == order[i]
            && LeValue(f[at + 32..at + 40]) == m.table[order[i]].nonce
            && LeValue(f[at + 40..at + 44]) == m.table[order[i]].useCount
  {
    var f, at := Encode(m, order), HEADER_LEN + ENTRY_LEN * i;
    var body, a := EncodeEntries(order, m.table), order[i];
    HeaderParts(m.seed, m.latest, |order|, body);
    EntryAt(order, m.table, i);
    EncodeEntryParts(a, m.table[a], []);
    var e := EncodeEntry(a, m.table[a]);
    assert e + [] == e;
    assert f[at..at + ENTRY_LEN] == body[ENTRY_LEN * i..ENTRY_LEN * i + ENTRY_LEN] == e;
    assert f[at..at + 32] == e[..32] && f[at + 32..at + 40] == e[32..40] && f[at + 40..at + 44] == e[40..44];
  }

  /** Loading any saved file, with anything appended to it, restores the seed, the counter and the
      first `n mod 2^32` of the n entries in the order in which they were written. */
  lemma DecodeEncoded(m: Image, order: seq<Address>, trailing: seq<byte>)
    requires forall a :: a in order ==> a in m.table
    ensures Decode(Encode(m, order) + trailing)
         == Some(m.(table := Restrict(m.table, order[..|order| % TWO32])))
  {
    var body := EncodeEntries(order, m.table) + trailing;
    HeaderParts(m.seed, m.latest, |order|, body);
    assert Encode(m, order) + trailing == EncodeHeader(m.seed, m.latest, |order|) + body;
    var t := Restrict(m.table, order[..|order| % TWO32]);
    DecodeEncodedEntries(order, m.table, |order| % TWO32, map[], trailing);
    assert map[] + t == t;
  }

  lemma EnumerationSize(order: seq<Address>, table: map<Address, Entry>)
    requires Enumerates(order, table)
    ensures |order| == |table|
  {
    UniqueSize(order, table.Keys);
  }

  lemma {:induction false} UniqueSize(order: seq<Address>, keys: set<Address>)
    requires forall a :: a in order <==> a in keys
    requires forall i, j :: 0 <= i < j < |order| ==> order[i] != order[j]
    ensures |order| == |keys|
  {
    if order == [] {
      assert keys == {};
    } else {
      var a := order[0];
      assert forall b :: b in order[1..] <==> b in keys - {a} by {
        forall b | b in keys - {a} ensures b in order[1..] {
          var i :| 0 <= i < |order| && order[i] == b;
          assert order[1..][i - 1] == b;
        }
        forall b | b in order[1..] ensures b in keys - {a} {
          var i :| 0 <= i < |order[1..]| && order[1..][i] == b;
          assert order[i + 1] == b;
        }
      }
      UniqueSize(order[1..], keys - {a});
    }
  }

  lemma AllRead(m: Image, order: seq<Address>)
    requires Enumerates(order, m.table) && |order| < TWO32
    ensures Restrict(m.table, order[..|order| % TWO32]) == m.table
  {
    assert order[..|order| % TWO32] == order;
  }

  lemma SomeMissed(m: Image, order: seq<Address>)
    requires Enumerates(order, m.table) && |order| >= TWO32
    ensures Restrict(m.table, order[..|order| % TWO32]) != m.table
  {
    var k := |order| % TWO32;
    assert order[k] in m.table && order[k] !in order[..k];
  }

  /** The whole table comes back exactly when its size fits the 32-bit entry count; the iteration
      order of `save` and bytes appended to the file make no difference. */
  lemma SaveLoadRoundTrip(m: Image, order: seq<Address>, trailing: seq<byte>)
    requires Enumerates(order, m.table)
    ensures |Encode(m, order)| == HEADER_LEN + ENTRY_LEN * |m.table|
    ensures Decode(Encode(m, order) + trailing) == Some(m) <==> |m.table| < TWO32
  {
    EnumerationSize(order, m.table);
    DecodeEncoded(m, order, trailing);
    if |m.table| < TWO32 {
      AllRead(m, order);
    } else {
      SomeMissed(m, order);
    }
  }

  /** Too few bytes for the announced entries is an error. */
  lemma {:induction false} ShortEntriesFail(b: seq<byte>, n: nat, acc: map<Address, Entry>)
    requires |b| < ENTRY_LEN * n
    ensures DecodeEntries(b, n, acc) == None
  {
    if |b| >= ENTRY_LEN {
      Widths();
      LeValueBound(b[32..40]);
      LeValueBound(b[40..44]);
      ShortEntriesFail(b[ENTRY_LEN..], n - 1, acc[b[..32] := Entry(LeValue(b[32..40]), LeValue(b[40..44]))]);
    }
  }

  /** A saved file cut short at any byte does not load: a torn write cannot pass for a wallet. */
  lemma PrefixesFail(m: Image, order: seq<Address>, cut: nat)
    requires Enumerates(order, m.table) && |m.table| < TWO32
    requires cut < |Encode(m, order)|
    ensures Decode(Encode(m, order)[..cut]) == None
  {
    var f := Encode(m, order);
    EnumerationSize(order, m.table);
    if cut >= HEADER_LEN {
      var g := f[..cut];
      HeaderParts(m.seed, m.latest, |order|, EncodeEntries(order, m.table));
      assert g[24..32] == f[24..32] && g[32..36] == f[32..36];
      ShortEntriesFail(g[HEADER_LEN..], |order|, map[]);
    }
  }
}
