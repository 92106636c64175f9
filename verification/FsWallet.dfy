/** wallet/wallet.go in its own form: a mutable table, key arrays on the heap, and a file. */
module Wallet {
  import opened Bytes
  import opened WalletFormat
  import opened WalletMachine

  /** The file behind the wallet's path; None while it does not exist. */
  class Disk {
    var content: Option<seq<byte>>

    constructor (content: Option<seq<byte>>)
      ensures this.content == content
    {
      this.content := content;
    }
  }

  /** How os.WriteFile ended. All but Complete report an error: Torn leaves the first `cut` bytes, but never
      all of them, and Late leaves all of them. */
  datatype WriteOutcome = Complete | NotOpened | Torn(cut: nat) | Late

  predicate Lands(w: WriteOutcome) { w.Complete? || w.Late? }

  function WriteFile(before: Option<seq<byte>>, bytes: seq<byte>, w: WriteOutcome): Option<seq<byte>> {
    match w
    case Complete => Some(bytes)
    case Late => Some(bytes)
    case NotOpened => before
    case Torn(cut) => Some(if cut < |bytes| then bytes[..cut] else [])
  }

  /** What a save of `m` that ended as `w` makes of the file. */
  ghost predicate Stored(m: Image, before: Option<seq<byte>>, after: Option<seq<byte>>, w: WriteOutcome) {
    exists order :: Enumerates(order, m.table) && after == WriteFile(before, Encode(m, order), w)
  }

  /** Whether a Go call came back or panicked. */
  datatype Call = Returned | Panicked

  ghost predicate Zeroed(key: array<byte>)
    reads key
  {
    forall i :: 0 <= i < key.Length ==> key[i] == 0
  }

  /** The array still holds the key pair that `nonce` derives. */
  ghost predicate Intact(key: array<byte>, pub: PublicKey, seed: Seed, nonce: uint64)
    reads key
  {
    key[..] == KeyOf(pub, seed, nonce)
  }

  /** Account.clear: a nil account is left alone. */
  method Clear(key: array?<byte>)
    modifies if key == null then {} else {key}
    ensures key != null ==> Zeroed(key)
  {
    if key != null {
      for i := 0 to key.Length
        invariant forall j :: 0 <= j < i ==> key[j] == 0
      {
        key[i] := 0;
      }
    }
  }

  class OpenAcc {
    var nonce: uint64
    var useCount: uint32
    var acc: array?<byte>
    ghost const addr: Address  // the table key that leads here

    constructor (nonce: uint64, useCount: uint32, acc: array?<byte>, ghost addr: Address)
      ensures this.nonce == nonce && this.useCount == useCount && this.acc == acc && this.addr == addr
    {
      this.nonce, this.useCount, this.acc, this.addr := nonce, useCount, acc, addr;
    }
  }

  lemma {:induction false} EncodeEntriesAppend(order: seq<Address>, a: Address, table: map<Address, Entry>)
    requires forall b :: b in order + [a] ==> b in table
    ensures EncodeEntries(order + [a], table) == EncodeEntries(order, table) + EncodeEntry(a, table[a])
  {
    assert a in order + [a];
    if order == [] {
      assert EncodeEntries([], table) == [];
      assert (order + [a])[1..] == [];
    } else {
      assert order[0] in order + [a];
      assert forall b :: b in order[1..] + [a] ==> b in order + [a];
      EncodeEntriesAppend(order[1..], a, table);
      assert (order + [a])[1..] == order[1..] + [a];
    }
  }

  /** binary.Read of a uint64 at `pos`. */
  function ReadU64(r: seq<byte>, pos: nat): (v: uint64)
    requires pos + 8 <= |r|
    ensures v == LeValue(r[pos..pos + 8])
  {
    Widths();
    LeValueBound(r[pos..pos + 8]);
    LeValue(r[pos..pos + 8])
  }

  /** binary.Read of a uint32 at `pos`. */
  function ReadU32(r: seq<byte>, pos: nat): (v: uint32)
    requires pos + 4 <= |r|
    ensures v == LeValue(r[pos..pos + 4])
  {
    Widths();
    LeValueBound(r[pos..pos + 4]);
    LeValue(r[pos..pos + 4])
  }

  lemma DecodeStep(r: seq<byte>, pos: nat, n: nat, t: map<Address, Entry>)
    requires n > 0 && pos <= |r|
    ensures DecodeEntries(r[pos..], n, t)
         == if |r| - pos < ENTRY_LEN then None
            else DecodeEntries(r[pos + ENTRY_LEN..], n - 1,
                               t[r[pos..pos + 32] := Entry(ReadU64(r, pos + 32), ReadU32(r, pos + 40))])
  {
    var b := r[pos..];
    if |b| >= ENTRY_LEN {
      assert b[..32] == r[pos..pos + 32];
      assert b[32..40] == r[pos + 32..pos + 40];
      assert b[40..44] == r[pos + 40..pos + 44];
      assert b[ENTRY_LEN..] == r[pos + ENTRY_LEN..];
    }
  }

  class FsWallet {
    const pub: PublicKey
    const file: Disk?
    var seed: Seed
    var latestAcc: uint64
    var openAccs: map<Address, OpenAcc>
    ghost var issued: map<array<byte>, Address>  // every key array ever handed out, and for which entry

    /** Each open account has its own record and its own key array, and a present key is intact. */
    ghost predicate Valid()
      reads this, openAccs.Values, issued.Keys
    {
      forall a :: a in openAccs ==>
        && openAccs[a].addr == a
        && (openAccs[a].acc != null ==>
              && openAccs[a].acc in issued && issued[openAccs[a].acc] == a
              && Intact(openAccs[a].acc, pub, seed, openAccs[a].nonce))
    }

    ghost predicate Held(key: array<byte>)
      reads this, openAccs.Values
    {
      key in issued && issued[key] in openAccs && openAccs[issued[key]].acc == key
    }

    /** A key array that was handed out but is no longer in the table has been wiped. */
    ghost predicate Wiped()
      reads this, openAccs.Values, issued.Keys
    {
      forall k :: k in issued ==> Held(k) || Zeroed(k)
    }

    ghost function Table(): map<Address, Entry>
      reads this, openAccs.Values
    {
      map a | a in openAccs :: Entry(openAccs[a].nonce, openAccs[a].useCount)
    }

    ghost function Durable(): Image
      reads this, openAccs.Values
    {
      Image(seed, latestAcc, Table())
    }

    constructor (pub: PublicKey, file: Disk?, seed: Seed)
      ensures Valid() && Wiped() && issued == map[] && openAccs == map[]
      ensures this.pub == pub && this.file == file && Durable() == Image(seed, 0, map[])
    {
      this.pub, this.file, this.seed := pub, file, seed;
      latestAcc, openAccs, issued := 0, map[], map[];
    }

    /** Makes `addr` lead to a new record. */
    method Put(addr: Address, nonce: uint64, useCount: uint32, key: array?<byte>)
      modifies this`openAccs
      ensures addr in openAccs && fresh(openAccs[addr]) && openAccs == old(openAccs)[addr := openAccs[addr]]
      ensures openAccs[addr].nonce == nonce && openAccs[addr].useCount == useCount
      ensures openAccs[addr].acc == key && openAccs[addr].addr == addr
      ensures Table() == old(Table())[addr := Entry(nonce, useCount)]
    {
      var acc := new OpenAcc(nonce, useCount, key, addr);
      openAccs := openAccs[addr := acc];
    }

    method Load(r: seq<byte>) returns (ok: bool)
      modifies this
      ensures ok <==> Decode(r).Some?
      ensures ok ==>
        && Valid() && Durable() == Decode(r).value
        && issued == map[] && fresh(openAccs.Values)
        && forall a :: a in openAccs ==> openAccs[a].acc == null
    {
      openAccs, issued := map[], map[];
      if |r| < 24 { return false; }
      seed := r[..24];
      if |r| < 32 { return false; }
      latestAcc := ReadU64(r, 24);
      if |r| < HEADER_LEN { return false; }
      ok := LoadEntries(r, ReadU32(r, 32));
    }

    /** The loop of load: n entries, each a fresh record without a key. */
    method LoadEntries(r: seq<byte>, n: nat) returns (ok: bool)
      requires |r| >= HEADER_LEN && openAccs == map[]
      modifies this`openAccs
      ensures fresh(openAccs.Values)
      ensures DecodeEntries(r[HEADER_LEN..], n, map[]) == if ok then Some(Table()) else None
      ensures forall a :: a in openAccs ==> openAccs[a].acc == null && openAccs[a].addr == a
    {
      var pos := HEADER_LEN;
      for i := 0 to n
        invariant HEADER_LEN <= pos <= |r|
        invariant fresh(openAccs.Values)
        invariant forall a :: a in openAccs ==> openAccs[a].acc == null && openAccs[a].addr == a
        invariant DecodeEntries(r[HEADER_LEN..], n, map[]) == DecodeEntries(r[pos..], n - i, Table())
      {
        ghost var before := Table();
        DecodeStep(r, pos, n - i, before);
        if |r| - pos < ENTRY_LEN { return false; }
        var pk: Address := r[pos..pos + 32];
        ghost var values := openAccs.Values;
        Put(pk, ReadU64(r, pos + 32), ReadU32(r, pos + 40), null);
        assert openAccs.Values <= values + {openAccs[pk]};
        pos := pos + ENTRY_LEN;
      }
      return true;
    }

    /** The buffer that save fills: every open account, used or not, in some iteration order. */
    method Serialize() returns (bytes: seq<byte>, ghost order: seq<Address>)
      ensures Enumerates(order, Table()) && bytes == Encode(Durable(), order)
    {
      ghost var table := Table();
      order := [];
      bytes := EncodeHeader(seed, latestAcc, |openAccs|);
      ghost var header := bytes;
      var todo := openAccs.Keys;
      while todo != {}
        invariant todo <= openAccs.Keys
        invariant forall a :: a in order <==> a in openAccs.Keys - todo
        invariant forall i, j :: 0 <= i < j < |order| ==> order[i] != order[j]
        invariant bytes == header + EncodeEntries(order, table)
        decreases todo
      {
        var a :| a in todo;
        assert a !in order;
        bytes := bytes + EncodeEntry(a, Entry(openAccs[a].nonce, openAccs[a].useCount));
        EncodeEntriesAppend(order, a, table);
        order, todo := order + [a], todo - {a};
      }
      UniqueSize(order, openAccs.Keys);
      assert |openAccs.Keys| == |openAccs|;
    }

    ghost function FileContent(): Option<seq<byte>>
      reads file
    {
      if file == null then None else file.content
    }

    /** A save of the present table: a wallet without a file has nothing to do. */
    ghost predicate Saved(before: Option<seq<byte>>, ok: bool, w: WriteOutcome)
      reads this, openAccs.Values, file
    {
      if file == null then ok else Stored(Durable(), before, file.content, w) && ok == w.Complete?
    }

    method Save(w: WriteOutcome) returns (ok: bool)
      modifies if file == null then {} else {file}
      ensures Valid() == old(Valid()) && Wiped() == old(Wiped()) && Durable() == old(Durable())
      ensures Saved(old(FileContent()), ok, w)
    {
      if file == null { return true; }
      var bytes, order := Serialize();
      file.content := WriteFile(file.content, bytes, w);
      ok := w.Complete?;
    }

    /** A new key array, and the address that Account.Address reads off it. */
    method GenAcc(id: uint64) returns (key: array<byte>, addr: Address)
      ensures fresh(key) && Intact(key, pub, seed, id)
      ensures addr == key[32..] == AddressOf(pub, seed, id)
      ensures key.Length == 64 && key[..24] == seed && LeValue(key[24..32]) == id && key[32..] == pub(key[..32])
    {
      KeyIsPair(pub, seed, id);
      var k := KeyOf(pub, seed, id);
      key := new byte[64](i requires 0 <= i < 64 => k[i]);
      assert key[..] == k;
      assert key[..24] == key[..][..24] && key[24..32] == key[..][24..32] && key[..32] == key[..][..32];
      addr := key[32..];
    }

    /** Enters a new key into the table. */
    method Adopt(addr: Address, nonce: uint64, key: array<byte>)
      requires Valid() && key !in issued && Intact(key, pub, seed, nonce)
      modifies this`openAccs, this`issued
      ensures Valid() && issued == old(issued)[key := addr]
      ensures Table() == old(Table())[addr := Entry(nonce, 0)]
      ensures forall o :: o in openAccs.Values ==> o in old(openAccs.Values) || fresh(o)
      ensures old(Wiped() && addr !in openAccs) ==> Wiped()
    {
      Put(addr, nonce, 0, key);
      issued := issued[key := addr];
    }

    /** The next account gets the next nonce, which wraps around. */
    method Advance()
      requires Valid()
      modifies this`latestAcc
      ensures Valid() && (old(Wiped()) ==> Wiped())
      ensures Durable() == old(Durable()).(latest := (old(latestAcc) + 1) % TWO64)
    {
      latestAcc := (latestAcc + 1) % TWO64;
    }

    /** A fresh unlocked account; nothing is written to the file. */
    method NewAccount() returns (key: array<byte>)
      requires Valid()
      modifies this`openAccs, this`latestAcc, this`issued
      ensures Valid()
      ensures Durable() == AfterNew(pub, old(Durable()))
      ensures fresh(key) && issued == old(issued)[key := AddressOf(pub, seed, old(latestAcc))]
      ensures Intact(key, pub, seed, old(latestAcc))
      ensures forall o :: o in openAccs.Values ==> o in old(openAccs.Values) || fresh(o)
      ensures old(Wiped() && AddressOf(pub, seed, latestAcc) !in openAccs) ==> Wiped()
    {
      var addr;
      key, addr := GenAcc(latestAcc);
      Adopt(addr, latestAcc, key);
      Advance();
    }

    /** Returns the key itself, not a copy. */
    method Unlock(a: Address) returns (key: array?<byte>)
      requires Valid()
      modifies this`issued, openAccs.Values
      ensures Valid() && openAccs == old(openAccs) && Durable() == old(Durable())
      ensures key == null <==> a !in openAccs
      ensures key == null ==> issued == old(issued)
      ensures key != null ==>
        && openAccs[a].acc == key && issued == old(issued)[key := a]
        && Intact(key, pub, seed, openAccs[a].nonce)
        && (if old(a in openAccs && openAccs[a].acc != null) then key == old(openAccs[a].acc) else fresh(key))
      ensures old(Wiped()) ==> Wiped()
      ensures key != null && WellFormed(pub, Durable()) ==> key[32..] == a
    {
      if a !in openAccs { return null; }
      var acc := openAccs[a];
      if acc.acc == null {
        var k, _ := GenAcc(acc.nonce);
        acc.acc := k;
        issued := issued[k := a];
      }
      key := acc.acc;
      assert Table()[a].nonce == acc.nonce;
      assert key[32..] == key[..][32..];
    }

    /** One round of the loop of LockAll. */
    method Lock(a: Address)
      requires Valid() && a in openAccs
      modifies openAccs[a], issued.Keys
      ensures Valid() && Durable() == old(Durable())
      ensures openAccs[a].acc == null
      ensures old(openAccs[a].acc) != null ==> Zeroed(old(openAccs[a].acc))
      ensures forall b :: b in openAccs && b != a ==> openAccs[b].acc == old(openAccs[b].acc)
      ensures forall k :: k in issued && old(Zeroed(k)) ==> Zeroed(k)
      ensures old(Wiped()) ==> Wiped()
    {
      ghost var key := openAccs[a].acc;
      Clear(openAccs[a].acc);
      assert forall b: Address :: b in openAccs && b != a ==>
        openAccs[b] != openAccs[a] && (openAccs[b].acc != null ==> openAccs[b].acc != key);
      openAccs[a].acc := null;
    }

    /** Wipes every key in the table. In such a wallet that is every key array ever handed out. */
    method LockAll()
      requires Valid()
      modifies openAccs.Values, issued.Keys
      ensures Valid() && Durable() == old(Durable())
      ensures forall a :: a in openAccs ==> openAccs[a].acc == null
      ensures forall a :: a in openAccs && old(openAccs[a].acc) != null ==> Zeroed(old(openAccs[a].acc))
      ensures old(Wiped()) ==> Wiped() && forall k :: k in issued ==> Zeroed(k)
    {
      var todo := openAccs.Keys;
      while todo != {}
        invariant Valid() && Durable() == old(Durable()) && todo <= openAccs.Keys
        invariant old(Wiped()) ==> Wiped()
        invariant forall a :: a in openAccs ==> openAccs[a].acc == if a in todo then old(openAccs[a].acc) else null
        invariant forall a :: a in openAccs && a !in todo && old(openAccs[a].acc) != null ==> Zeroed(old(openAccs[a].acc))
        decreases todo
      {
        var a :| a in todo;
        Lock(a);
        todo := todo - {a};
      }
    }

    /** Sets one use counter. */
    method SetUseCount(a: Address, count: uint32)
      requires Valid() && a in openAccs
      modifies openAccs[a]
      ensures Valid()
      ensures openAccs[a].useCount == count && openAccs[a].acc == old(openAccs[a].acc) && openAccs[a].nonce == old(openAccs[a].nonce)
      ensures Durable() == old(Durable()).(table := old(Table())[a := Entry(openAccs[a].nonce, count)])
      ensures old(Wiped()) ==> Wiped()
    {
      openAccs[a].useCount := count;
      assert forall b: Address :: b in openAccs && b != a ==> openAccs[b] != openAccs[a];
    }

    /** The change that IncrementUsage makes in memory. */
    method Acquire(a: Address)
      requires Valid() && a in openAccs
      modifies openAccs[a]
      ensures Valid()
      ensures Durable() == AfterIncrement(old(Durable()), a)
      ensures old(Wiped()) ==> Wiped()
    {
      SetUseCount(a, (openAccs[a].useCount + 1) % TWO32);
    }

    method IncrementUsage(a: Address, w: WriteOutcome) returns (r: Call)
      requires Valid()
      modifies if a in openAccs then {openAccs[a]} else {}, if file == null then {} else {file}
      ensures Valid()
      ensures a !in openAccs ==> r == Panicked && Durable() == old(Durable()) && FileContent() == old(FileContent())
      ensures a in openAccs ==>
        && Durable() == AfterIncrement(old(Durable()), a)
        && Saved(old(FileContent()), r == Returned, w)
      ensures old(Wiped()) ==> Wiped()
    {
      if a !in openAccs { return Panicked; }
      Acquire(a);
      var ok := Save(w);
      r := if ok then Returned else Panicked;
    }

    /** Deletes a locked account. */
    method Drop(a: Address)
      requires Valid() && a in openAccs && openAccs[a].acc == null
      modifies this`openAccs
      ensures Valid()
      ensures openAccs == old(openAccs) - {a}
      ensures Durable() == old(Durable()).(table := old(Table()) - {a})
      ensures old(Wiped()) ==> Wiped()
    {
      openAccs := openAccs - {a};
    }

    /** Wipes the key of an account and deletes the account. */
    method Remove(a: Address)
      requires Valid() && a in openAccs
      modifies this`openAccs, openAccs[a], issued.Keys
      ensures Valid()
      ensures openAccs == old(openAccs) - {a}
      ensures Durable() == old(Durable()).(table := old(Table()) - {a})
      ensures old(Wiped()) ==> Wiped()
    {
      Lock(a);  // the source leaves the wiped key in the record, which becomes garbage here
      Drop(a);
    }

    /** The change that DecrementUsage makes in memory. */
    method Release(a: Address)
      requires Valid() && a in openAccs && openAccs[a].useCount > 0
      modifies this`openAccs, openAccs[a], issued.Keys
      ensures Valid()
      ensures Durable() == AfterDecrement(old(Durable()), a)
      ensures openAccs == old(openAccs) || openAccs == old(openAccs) - {a}
      ensures old(Wiped()) ==> Wiped()
    {
      ghost var m := Durable();
      assert m.table[a] == Entry(openAccs[a].nonce, openAccs[a].useCount);
      SetUseCount(a, openAccs[a].useCount - 1);
      if openAccs[a].useCount == 0 {
        Remove(a);
        assert Table() == m.table - {a};
      }
    }

    /** The key of an account that is deleted is wiped: it is issued, but no longer held. */
    method DecrementUsage(a: Address, w: WriteOutcome) returns (r: Call)
      requires Valid()
      modifies this`openAccs, if a in openAccs then {openAccs[a]} else {}, issued.Keys, if file == null then {} else {file}
      ensures Valid()
      ensures old(a !in openAccs || openAccs[a].useCount == 0) ==>
        r == Panicked && Durable() == old(Durable()) && FileContent() == old(FileContent())
      ensures old(a in openAccs && openAccs[a].useCount > 0) ==>
        && Durable() == AfterDecrement(old(Durable()), a)
        && Saved(old(FileContent()), r == Returned, w)
      ensures openAccs == old(openAccs) || openAccs == old(openAccs) - {a}
      ensures old(Wiped()) ==> Wiped()
    {
      if a !in openAccs { return Panicked; }
      if openAccs[a].useCount == 0 { return Panicked; }
      Release(a);
      var ok := Save(w);
      r := if ok then Returned else Panicked;
    }
  }

  /** A new wallet is made whenever the file cannot be read, for whatever reason: an existing but
      unreadable wallet is overwritten. */
  method CreateOrLoadFsWallet(pub: PublicKey, file: Disk, readable: bool, gen: seq<byte>, w: WriteOutcome)
      returns (wallet: FsWallet?)
    modifies file
    ensures wallet != null ==>
      && fresh(wallet) && fresh(wallet.openAccs.Values) && wallet.issued == map[]
      && wallet.Valid() && wallet.Wiped() && wallet.pub == pub && wallet.file == file
    ensures readable && old(file.content).Some? ==>
      && file.content == old(file.content)
      && (wallet != null <==> Decode(file.content.value).Some?)
      && (wallet != null ==> wallet.Durable() == Decode(file.content.value).value)
    ensures !(readable && old(file.content).Some?) && |gen| < SEED_LEN ==>
      wallet == null && file.content == old(file.content)
    ensures !(readable && old(file.content).Some?) && |gen| >= SEED_LEN ==>
      && Stored(NewWallet(gen[..SEED_LEN]), old(file.content), file.content, w)
      && (wallet != null <==> w.Complete?)
      && (wallet != null ==> wallet.Durable() == NewWallet(gen[..SEED_LEN]))
  {
    if readable && file.content.Some? {
      wallet := new FsWallet(pub, file, seq(SEED_LEN, _ => 0));
      var ok := wallet.Load(file.content.value);
      if !ok { return null; }
    } else {
      if |gen| < SEED_LEN { return null; }
      wallet := new FsWallet(pub, file, gen[..SEED_LEN]);
      var ok := wallet.Save(w);
      if !ok { return null; }
    }
  }

  /** A write of all bytes is a saved file, any other one a failed write. */
  lemma StoredIsWrite(m: Image, before: seq<byte>, after: Option<seq<byte>>, w: WriteOutcome)
    requires Stored(m, Some(before), after, w)
    ensures after.Some?
    ensures if Lands(w) then Saved(m, after.value) else WriteFailed(m, before, after.value)
    ensures w.NotOpened? ==> after.value == before
    ensures w.Torn? && |m.table| < TWO32 ==> Decode(after.value) == None
  {
    var order :| Enumerates(order, m.table) && after == WriteFile(Some(before), Encode(m, order), w);
    var bytes := Encode(m, order);
    if w.Torn? {
      var cut: nat := if w.cut < |bytes| then w.cut else 0;
      assert bytes[..0] == [];
      assert cut < |bytes| && after.value == bytes[..cut];
      if |m.table| < TWO32 {
        PrefixesFail(m, order, cut);
      }
    }
  }

  /** A save by the class is a save step of the machine. */
  lemma StoredIsSaveStep(s: Sys, m: Image, e: Event, after: Option<seq<byte>>, w: WriteOutcome)
    requires Stored(m, Some(s.disk), after, w)
    ensures after.Some?
    ensures SaveStep(s, s.(ram := if w.Complete? then Some(m) else None, disk := after.value,
                           history := if Lands(w) then s.history + [e] else s.history), m, e)
  {
    StoredIsWrite(m, s.disk, after, w);
  }

  /** Locking kills the key that was handed out before, whoever still holds it; unlocking gives a
      different array with the same key pair, whose public half is the requested address. */
  method RelockRoundTrip(wallet: FsWallet, a: Address) returns (first: array<byte>, second: array<byte>)
    requires wallet.Valid() && wallet.Wiped() && WellFormed(wallet.pub, wallet.Durable()) && a in wallet.openAccs
    modifies wallet`issued, wallet.openAccs.Values, wallet.issued.Keys
    ensures wallet.Valid() && wallet.Wiped() && wallet.Durable() == old(wallet.Durable())
    ensures Zeroed(first) && first != second && fresh(second)
    ensures second[..] == KeyOf(wallet.pub, wallet.seed, wallet.openAccs[a].nonce) && second[32..] == a
  {
    first := wallet.Unlock(a);
    wallet.LockAll();
    second := wallet.Unlock(a);
  }
}
