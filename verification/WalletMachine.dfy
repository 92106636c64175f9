/** FsWallet over whole runs: creation, usage counting, saving, torn writes, crashes, reloads, and
    restarts that cannot read the file and replace the wallet. */
module WalletMachine {
  import opened Bytes
  import opened WalletFormat

  /** The Ed25519 public key of a 32-byte seed (section 5.1.5 of RFC 8032), left abstract. */
  type PublicKey = seq<byte> -> Address

  /** The randomness that genAcc feeds to the key generator. */
  function KeySeed(seed: Seed, nonce: uint64): (s: seq<byte>)
    ensures |s| == 32
  {
    seed + LeBytes(8, nonce)
  }

  function AddressOf(pub: PublicKey, seed: Seed, nonce: uint64): Address {
    pub(KeySeed(seed, nonce))
  }

  /** An expanded Ed25519 private key: the seed followed by the public key. */
  function KeyOf(pub: PublicKey, seed: Seed, nonce: uint64): (k: seq<byte>)
    ensures |k| == 64 && k[32..] == AddressOf(pub, seed, nonce)
  {
    KeySeed(seed, nonce) + AddressOf(pub, seed, nonce)
  }

  /** A key is the pair of its first half, which is the seed followed by the nonce, and the public key of
      that half. */
  lemma KeyIsPair(pub: PublicKey, seed: Seed, nonce: uint64)
    ensures var k := KeyOf(pub, seed, nonce);
            && k[..24] == seed && LeValue(k[24..32]) == nonce && k[32..] == pub(k[..32])
  {
    var k := KeyOf(pub, seed, nonce);
    assert k[..32] == KeySeed(seed, nonce);
    assert k[24..32] == LeBytes(8, nonce);
    Le64RoundTrip(nonce);
  }

  /** The assumption on the key generator: no two nonces of wallets with these seeds share an address. */
  ghost predicate CollisionFree(pub: PublicKey, seeds: set<Seed>) {
    forall x: Seed, y: Seed, i: uint64, j: uint64 {:trigger AddressOf(pub, x, i), AddressOf(pub, y, j)} ::
      x in seeds && y in seeds && AddressOf(pub, x, i) == AddressOf(pub, y, j) ==> x == y && i == j
  }

  /** The assumption can be met: the seeds themselves, taken for addresses, are all different. */
  lemma CollisionFreeIsPossible(seeds: set<Seed>) returns (pub: PublicKey)
    ensures CollisionFree(pub, seeds)
  {
    pub := (s: seq<byte>) => if |s| == 32 then s else Zeros(32);
    forall x: Seed, y: Seed, i: uint64, j: uint64 | AddressOf(pub, x, i) == AddressOf(pub, y, j) ensures x == y && i == j {
      assert KeySeed(x, i)[..24] == x && KeySeed(y, j)[..24] == y;
      assert KeySeed(x, i)[24..] == LeBytes(8, i) && KeySeed(y, j)[24..] == LeBytes(8, j);
      Le64RoundTrip(i);
      Le64RoundTrip(j);
    }
  }

  // ---- The operations on the durable part of a wallet ----

  function AfterNew(pub: PublicKey, m: Image): Image {
    Image(m.seed, (m.latest + 1) % TWO64, m.table[AddressOf(pub, m.seed, m.latest) := Entry(m.latest, 0)])
  }

  function AfterIncrement(m: Image, a: Address): Image
    requires a in m.table
  {
    m.(table := m.table[a := Entry(m.table[a].nonce, (m.table[a].useCount + 1) % TWO32)])
  }

  function AfterDecrement(m: Image, a: Address): Image
    requires a in m.table && m.table[a].useCount > 0
  {
    var e := m.table[a];
    m.(table := if e.useCount == 1 then m.table - {a} else m.table[a := Entry(e.nonce, e.useCount - 1)])
  }

  function NewWallet(seed: Seed): Image {
    Image(seed, 0, map[])
  }

  // ---- The system: a process that may be down, and its file ----

  datatype Event =
    | Created(seed: Seed, nonce: uint64)
    | Incremented(seed: Seed, nonce: uint64)
    | Decremented(seed: Seed, nonce: uint64)

  /** `seeds` are all the seeds a wallet was ever made from. */
  datatype Sys = Sys(ram: Option<Image>, disk: seq<byte>, seeds: set<Seed>, history: seq<Event>)

  ghost predicate Saved(m: Image, disk: seq<byte>) {
    exists order :: Enumerates(order, m.table) && disk == Encode(m, order)
  }

  /** A write that failed before all bytes were written left the old file or a strict prefix of the new one. */
  ghost predicate WriteFailed(m: Image, before: seq<byte>, after: seq<byte>) {
    || after == before
    || exists order, cut: nat :: Enumerates(order, m.table) && cut < |Encode(m, order)| && after == Encode(m, order)[..cut]
  }

  ghost predicate Init(seed: Seed, s: Sys) {
    s == Sys(Some(NewWallet(seed)), Encode(NewWallet(seed), []), {seed}, [])
  }

  ghost predicate NewStep(pub: PublicKey, s: Sys, t: Sys) {
    && s.ram.Some?
    && t == s.(ram := Some(AfterNew(pub, s.ram.value)), history := s.history + [Created(s.ram.value.seed, s.ram.value.latest)])
  }

  /** The process stores `m`, or panics because the write failed. If it only failed after all bytes were
      written, the change is complete although the process is down. */
  ghost predicate SaveStep(s: Sys, t: Sys, m: Image, e: Event) {
    t.seeds == s.seeds
    && (|| ((t.ram == Some(m) || t.ram == None) && Saved(m, t.disk) && t.history == s.history + [e])
        || (t.ram == None && WriteFailed(m, s.disk, t.disk) && t.history == s.history))
  }

  ghost predicate IncrementStep(s: Sys, t: Sys, a: Address) {
    && s.ram.Some? && a in s.ram.value.table
    && SaveStep(s, t, AfterIncrement(s.ram.value, a), Incremented(s.ram.value.seed, s.ram.value.table[a].nonce))
  }

  ghost predicate DecrementStep(s: Sys, t: Sys, a: Address) {
    && s.ram.Some? && a in s.ram.value.table && s.ram.value.table[a].useCount > 0
    && SaveStep(s, t, AfterDecrement(s.ram.value, a), Decremented(s.ram.value.seed, s.ram.value.table[a].nonce))
  }

  /** Unlock and LockAll touch neither the file nor the durable part of the table. */
  ghost predicate KeyStep(s: Sys, t: Sys) { t == s }

  ghost predicate CrashStep(s: Sys, t: Sys) { t == s.(ram := None) }

  /** A restart that can read the file. */
  ghost predicate ReloadStep(s: Sys, t: Sys) { s.ram.None? && t == s.(ram := Decode(s.disk)) }

  /** A restart that cannot read the file makes a wallet from a new random seed and writes it over the
      file, whatever that holds. The write may fail. */
  ghost predicate ReplaceStep(s: Sys, t: Sys, seed: Seed) {
    && s.ram.None? && seed !in s.seeds && t.seeds == s.seeds + {seed} && t.history == s.history
    && (|| ((t.ram == Some(NewWallet(seed)) || t.ram == None) && Saved(NewWallet(seed), t.disk))
        || (t.ram == None && WriteFailed(NewWallet(seed), s.disk, t.disk)))
  }

  ghost predicate Replacing(s: Sys, t: Sys) {
    exists seed :: ReplaceStep(s, t, seed)
  }

  ghost predicate Next(pub: PublicKey, s: Sys, t: Sys) {
    || NewStep(pub, s, t)
    || (exists a :: IncrementStep(s, t, a))
    || (exists a :: DecrementStep(s, t, a))
    || KeyStep(s, t)
    || CrashStep(s, t)
    || ReloadStep(s, t)
    || Replacing(s, t)
  }

  /** No machine counter is about to wrap: the nonce, the file's entry count, or a use counter. */
  ghost predicate NoWrap(s: Sys) {
    s.ram.Some? ==>
      && s.ram.value.latest < TWO64 - 1
      && |s.ram.value.table| < TWO32
      && forall a :: a in s.ram.value.table ==> s.ram.value.table[a].useCount < TWO32 - 1
  }

  ghost predicate Legal(pub: PublicKey, trace: seq<Sys>, i: int) {
    0 <= i < |trace| - 1 ==> NoWrap(trace[i]) && Next(pub, trace[i], trace[i + 1])
  }

  ghost predicate Run(pub: PublicKey, seed: Seed, trace: seq<Sys>) {
    |trace| > 0 && Init(seed, trace[0]) && forall i :: Legal(pub, trace, i)
  }

  /** Completed increments of a key minus completed decrements. */
  function Net(history: seq<Event>, seed: Seed, nonce: uint64): int {
    if history == [] then 0
    else
      var e := history[|history| - 1];
      Net(history[..|history| - 1], seed, nonce)
      + (if e == Incremented(seed, nonce) then 1 else if e == Decremented(seed, nonce) then -1 else 0)
  }

  function Uses(table: map<Address, Entry>, a: Address): nat {
    if a in table then table[a].useCount else 0
  }

  // ---- The invariant ----

  ghost predicate WellFormed(pub: PublicKey, m: Image) {
    forall a :: a in m.table ==> a == AddressOf(pub, m.seed, m.table[a].nonce) && m.table[a].nonce < m.latest
  }

  function Below(table: map<Address, Entry>, counter: uint64): map<Address, Entry> {
    map a | a in table && table[a].nonce < counter :: table[a]
  }

  /** `d`, the decoded file, holds exactly the open entries below its counter, with their current
      nonce and use count; every open entry it misses is unused. */
  ghost predicate OnDisk(m: Image, d: Image) {
    && d.seed == m.seed && d.latest <= m.latest
    && d.table == Below(m.table, d.latest)
    && forall a :: a in m.table && m.table[a].nonce >= d.latest ==> m.table[a].useCount == 0
  }

  ghost predicate UsedKeysRetired(history: seq<Event>, m: Image) {
    forall e :: e in history && e.Incremented? && e.seed == m.seed ==> e.nonce < m.latest
  }

  ghost predicate CountsAgree(pub: PublicKey, d: Image, history: seq<Event>) {
    forall n: uint64 {:trigger AddressOf(pub, d.seed, n)} {:trigger Net(history, d.seed, n)} ::
      Uses(d.table, AddressOf(pub, d.seed, n)) == Net(history, d.seed, n)
  }

  ghost predicate SeedsKnown(s: Sys) {
    forall e :: e in s.history ==> e.seed in s.seeds
  }

  /** What is true of a file that holds the wallet `d`. */
  ghost predicate GoodFile(pub: PublicKey, s: Sys, d: Image) {
    && d.seed in s.seeds && WellFormed(pub, d)
    && UsedKeysRetired(s.history, d) && CountsAgree(pub, d, s.history)
  }

  ghost predicate Inv(pub: PublicKey, s: Sys) {
    && SeedsKnown(s)
    && match Decode(s.disk)
       case None => s.ram.None?
       case Some(d) => GoodFile(pub, s, d) && (s.ram.Some? ==> WellFormed(pub, s.ram.value) && OnDisk(s.ram.value, d))
  }

  lemma NewWalletSaved(seed: Seed)
    ensures Decode(Encode(NewWallet(seed), [])) == Some(NewWallet(seed))
  {
    SaveLoadRoundTrip(NewWallet(seed), [], []);
    assert Encode(NewWallet(seed), []) + [] == Encode(NewWallet(seed), []);
  }

  lemma InitKeepsInv(pub: PublicKey, seed: Seed, s: Sys)
    requires Init(seed, s)
    ensures Inv(pub, s)
  {
    NewWalletSaved(seed);
  }

  /** A new account replaces an open one exactly if the table still has an entry with the next nonce,
      which takes a nonce counter that has wrapped. */
  lemma OverwritesExactlyOldNonce(pub: PublicKey, m: Image)
    requires CollisionFree(pub, {m.seed})
    requires forall a :: a in m.table ==> a == AddressOf(pub, m.seed, m.table[a].nonce)
    ensures AddressOf(pub, m.seed, m.latest) in m.table <==> exists a :: a in m.table && m.table[a].nonce == m.latest
    ensures WellFormed(pub, m) ==> AddressOf(pub, m.seed, m.latest) !in m.table
  {
  }

  /** The account that NewAccount makes is not in the table. */
  lemma NewAddressIsFree(pub: PublicKey, m: Image, seeds: set<Seed>)
    requires CollisionFree(pub, seeds) && m.seed in seeds && WellFormed(pub, m)
    ensures AddressOf(pub, m.seed, m.latest) !in m.table
  {
  }

  lemma NewKeepsWellFormed(pub: PublicKey, m: Image)
    requires WellFormed(pub, m) && m.latest < TWO64 - 1
    ensures WellFormed(pub, AfterNew(pub, m))
  {
  }

  lemma NewKeepsOnDisk(pub: PublicKey, m: Image, d: Image)
    requires m.latest < TWO64 - 1 && AddressOf(pub, m.seed, m.latest) !in m.table && OnDisk(m, d)
    ensures OnDisk(AfterNew(pub, m), d)
  {
    assert Below(AfterNew(pub, m).table, d.latest) == Below(m.table, d.latest);
  }

  lemma NewKeepsInv(pub: PublicKey, s: Sys, t: Sys)
    requires CollisionFree(pub, s.seeds) && Inv(pub, s) && NoWrap(s) && NewStep(pub, s, t)
    ensures Inv(pub, t)
    ensures AddressOf(pub, s.ram.value.seed, s.ram.value.latest) !in s.ram.value.table
  {
    var m, d := s.ram.value, Decode(s.disk).value;
    NewAddressIsFree(pub, m, s.seeds);
    NewKeepsWellFormed(pub, m);
    NewKeepsOnDisk(pub, m, d);
    forall n: uint64 ensures Uses(d.table, AddressOf(pub, d.seed, n)) == Net(t.history, d.seed, n) {
      NetStep(s.history, Created(m.seed, m.latest), d.seed, n);
    }
  }

  /** After a successful save the file decodes to the wallet itself. */
  lemma SavedDecodes(m: Image, disk: seq<byte>)
    requires Saved(m, disk) && |m.table| < TWO32
    ensures Decode(disk) == Some(m)
  {
    var order :| Enumerates(order, m.table) && disk == Encode(m, order);
    SaveLoadRoundTrip(m, order, []);
    assert disk + [] == disk;
  }

  lemma FailedWriteIsOldOrUnreadable(m: Image, before: seq<byte>, after: seq<byte>)
    requires WriteFailed(m, before, after) && |m.table| < TWO32
    ensures after == before || Decode(after) == None
  {
    if after != before {
      var order, cut: nat :| Enumerates(order, m.table) && cut < |Encode(m, order)| && after == Encode(m, order)[..cut];
      PrefixesFail(m, order, cut);
    }
  }

  /** A save step keeps the invariant once the stored image is right for the extended history. */
  lemma SaveKeepsInv(pub: PublicKey, s: Sys, t: Sys, m: Image, e: Event)
    requires Inv(pub, s) && SaveStep(s, t, m, e)
    requires m.seed in s.seeds && e.seed == m.seed && |m.table| < TWO32 && WellFormed(pub, m)
    requires UsedKeysRetired(s.history + [e], m) && CountsAgree(pub, m, s.history + [e])
    ensures Inv(pub, t)
  {
    if Saved(m, t.disk) && t.history == s.history + [e] {
      SavedDecodes(m, t.disk);
      assert Below(m.table, m.latest) == m.table;
    } else {
      FailedWriteIsOldOrUnreadable(m, s.disk, t.disk);
    }
  }

  lemma NetStep(history: seq<Event>, e: Event, seed: Seed, n: uint64)
    ensures Net(history + [e], seed, n)
         == Net(history, seed, n) + (if e == Incremented(seed, n) then 1 else if e == Decremented(seed, n) then -1 else 0)
  {
    assert (history + [e])[..|history|] == history;
  }

  /** In memory, too, every key's use count is its net usage. */
  lemma RamCountsAgree(pub: PublicKey, s: Sys)
    requires CollisionFree(pub, s.seeds) && Inv(pub, s) && s.ram.Some?
    ensures CountsAgree(pub, s.ram.value, s.history)
  {
    var m, d := s.ram.value, Decode(s.disk).value;
    forall n: uint64 ensures Uses(m.table, AddressOf(pub, m.seed, n)) == Net(s.history, m.seed, n) {
      assert Uses(d.table, AddressOf(pub, d.seed, n)) == Net(s.history, d.seed, n);
    }
  }

  /** An increment counts one use of its key, and of no other, exactly if the use counter does not wrap. */
  lemma IncrementCount(m: Image, a: Address, b: Address)
    requires a in m.table
    ensures Uses(AfterIncrement(m, a).table, b) == Uses(m.table, b) + (if a == b then 1 else 0)
        <==> a != b || m.table[a].useCount < TWO32 - 1
  {
  }

  /** A release deletes the account exactly with its last use, and touches no other. */
  lemma ReleaseDeletesLast(m: Image, a: Address, b: Address)
    requires a in m.table && m.table[a].useCount > 0
    ensures a in AfterDecrement(m, a).table <==> m.table[a].useCount > 1
    ensures b != a ==>
      && (b in AfterDecrement(m, a).table <==> b in m.table)
      && (b in m.table ==> AfterDecrement(m, a).table[b] == m.table[b])
    ensures AfterDecrement(m, a).seed == m.seed && AfterDecrement(m, a).latest == m.latest
  {
  }

  lemma DecrementCount(m: Image, a: Address, b: Address)
    requires a in m.table && m.table[a].useCount > 0
    ensures Uses(AfterDecrement(m, a).table, b) == Uses(m.table, b) - (if a == b then 1 else 0)
  {
  }

  lemma IncrementCounts(pub: PublicKey, m: Image, seeds: set<Seed>, history: seq<Event>, a: Address)
    requires CollisionFree(pub, seeds) && m.seed in seeds && WellFormed(pub, m) && CountsAgree(pub, m, history)
    requires a in m.table && m.table[a].useCount < TWO32 - 1
    ensures CountsAgree(pub, AfterIncrement(m, a), history + [Incremented(m.seed, m.table[a].nonce)])
  {
    var e := Incremented(m.seed, m.table[a].nonce);
    var m' := AfterIncrement(m, a);
    forall n: uint64
      ensures Uses(m'.table, AddressOf(pub, m'.seed, n)) == Net(history + [e], m'.seed, n)
    {
      NetStep(history, e, m.seed, n);
      IncrementCount(m, a, AddressOf(pub, m.seed, n));
    }
  }

  lemma DecrementCounts(pub: PublicKey, m: Image, seeds: set<Seed>, history: seq<Event>, a: Address)
    requires CollisionFree(pub, seeds) && m.seed in seeds && WellFormed(pub, m) && CountsAgree(pub, m, history)
    requires a in m.table && m.table[a].useCount > 0
    ensures CountsAgree(pub, AfterDecrement(m, a), history + [Decremented(m.seed, m.table[a].nonce)])
  {
    var e := Decremented(m.seed, m.table[a].nonce);
    var m' := AfterDecrement(m, a);
    forall n: uint64
      ensures Uses(m'.table, AddressOf(pub, m'.seed, n)) == Net(history + [e], m'.seed, n)
    {
      NetStep(history, e, m.seed, n);
      DecrementCount(m, a, AddressOf(pub, m.seed, n));
    }
  }

  lemma UsageKeepsWellFormed(pub: PublicKey, m: Image, a: Address)
    requires WellFormed(pub, m) && a in m.table
    ensures WellFormed(pub, AfterIncrement(m, a))
    ensures m.table[a].useCount > 0 ==> WellFormed(pub, AfterDecrement(m, a))
  {
  }

  /** Every nonce in memory is below the counter that the next save writes. */
  lemma RetiredAfterSave(s: Sys, m: Image, d: Image, a: Address, e: Event)
    requires OnDisk(m, d) && UsedKeysRetired(s.history, d)
    requires a in m.table && m.table[a].nonce < m.latest && e.nonce == m.table[a].nonce
    ensures UsedKeysRetired(s.history + [e], m)
  {
  }

  lemma TableSizes(m: Image, a: Address)
    requires a in m.table
    ensures |AfterIncrement(m, a).table| == |m.table|
    ensures m.table[a].useCount > 0 ==> |AfterDecrement(m, a).table| <= |m.table|
  {
    assert AfterIncrement(m, a).table.Keys == m.table.Keys;
    assert |AfterIncrement(m, a).table.Keys| == |m.table.Keys|;
    if m.table[a].useCount > 0 {
      var t := AfterDecrement(m, a).table;
      assert t.Keys == m.table.Keys || t.Keys == m.table.Keys - {a};
      assert |t.Keys| <= |m.table.Keys|;
    }
  }

  lemma IncrementKeepsInv(pub: PublicKey, s: Sys, t: Sys, a: Address)
    requires CollisionFree(pub, s.seeds) && Inv(pub, s) && NoWrap(s) && IncrementStep(s, t, a)
    ensures Inv(pub, t)
  {
    var m := s.ram.value;
    var e := Incremented(m.seed, m.table[a].nonce);
    RamCountsAgree(pub, s);
    IncrementCounts(pub, m, s.seeds, s.history, a);
    TableSizes(m, a);
    UsageKeepsWellFormed(pub, m, a);
    RetiredAfterSave(s, m, Decode(s.disk).value, a, e);
    SaveKeepsInv(pub, s, t, AfterIncrement(m, a), e);
  }

  lemma DecrementKeepsInv(pub: PublicKey, s: Sys, t: Sys, a: Address)
    requires CollisionFree(pub, s.seeds) && Inv(pub, s) && NoWrap(s) && DecrementStep(s, t, a)
    ensures Inv(pub, t)
  {
    var m := s.ram.value;
    var e := Decremented(m.seed, m.table[a].nonce);
    RamCountsAgree(pub, s);
    DecrementCounts(pub, m, s.seeds, s.history, a);
    TableSizes(m, a);
    UsageKeepsWellFormed(pub, m, a);
    RetiredAfterSave(s, m, Decode(s.disk).value, a, e);
    SaveKeepsInv(pub, s, t, AfterDecrement(m, a), e);
  }

  lemma ReloadKeepsInv(pub: PublicKey, s: Sys, t: Sys)
    requires Inv(pub, s) && ReloadStep(s, t)
    ensures Inv(pub, t)
  {
    if Decode(s.disk).Some? {
      var d := Decode(s.disk).value;
      assert Below(d.table, d.latest) == d.table;
    }
  }

  lemma {:induction false} NewSeedIsUnused(history: seq<Event>, seed: Seed, n: uint64)
    requires forall e :: e in history ==> e.seed != seed
    ensures Net(history, seed, n) == 0
  {
    if history != [] {
      NewSeedIsUnused(history[..|history| - 1], seed, n);
    }
  }

  /** What a restart without the old file leaves behind. */
  lemma ReplacedFile(s: Sys, t: Sys, seed: Seed)
    requires ReplaceStep(s, t, seed)
    ensures t.ram.Some? ==> t.ram == Decode(t.disk) == Some(NewWallet(seed))
    ensures t.ram.None? ==> t.disk == s.disk || Decode(t.disk) == None || Decode(t.disk) == Some(NewWallet(seed))
  {
    if Saved(NewWallet(seed), t.disk) {
      SavedDecodes(NewWallet(seed), t.disk);
    } else {
      FailedWriteIsOldOrUnreadable(NewWallet(seed), s.disk, t.disk);
    }
  }

  lemma ReplaceKeepsInv(pub: PublicKey, s: Sys, t: Sys, seed: Seed)
    requires Inv(pub, s) && ReplaceStep(s, t, seed)
    ensures Inv(pub, t)
  {
    ReplacedFile(s, t, seed);
    if Decode(t.disk) == Some(NewWallet(seed)) && t.disk != s.disk {
      forall n: uint64 ensures Uses(map[], AddressOf(pub, seed, n)) == Net(t.history, seed, n) {
        NewSeedIsUnused(t.history, seed, n);
      }
    }
  }

  lemma NextKeepsInv(pub: PublicKey, s: Sys, t: Sys)
    requires CollisionFree(pub, s.seeds) && Inv(pub, s) && NoWrap(s) && Next(pub, s, t)
    ensures Inv(pub, t)
  {
    if NewStep(pub, s, t) {
      NewKeepsInv(pub, s, t);
    } else if a :| IncrementStep(s, t, a) {
      IncrementKeepsInv(pub, s, t, a);
    } else if a :| DecrementStep(s, t, a) {
      DecrementKeepsInv(pub, s, t, a);
    } else if ReloadStep(s, t) {
      ReloadKeepsInv(pub, s, t);
    } else if seed :| ReplaceStep(s, t, seed) {
      ReplaceKeepsInv(pub, s, t, seed);
    }
  }

  lemma {:induction false} SeedsGrow(pub: PublicKey, seed: Seed, trace: seq<Sys>, i: nat, j: nat)
    requires Run(pub, seed, trace) && i <= j < |trace|
    ensures trace[i].seeds <= trace[j].seeds
  {
    if i < j {
      SeedsGrow(pub, seed, trace, i, j - 1);
      assert Legal(pub, trace, j - 1);
    }
  }

  // ---- Main results, over every run ----

  /** The exact disk invariant holds in every reachable state. */
  lemma {:induction false} DiskInvariant(pub: PublicKey, seed: Seed, trace: seq<Sys>, i: nat)
    requires Run(pub, seed, trace) && i < |trace| && CollisionFree(pub, trace[i].seeds)
    ensures Inv(pub, trace[i])
  {
    if i == 0 {
      InitKeepsInv(pub, seed, trace[0]);
    } else {
      SeedsGrow(pub, seed, trace, i - 1, i);
      DiskInvariant(pub, seed, trace, i - 1);
      assert Legal(pub, trace, i - 1);
      NextKeepsInv(pub, trace[i - 1], trace[i]);
    }
  }

  /** A key on which IncrementUsage ever succeeded is never handed out again, through any number of
      crashes, reloads and replaced wallets, and a new account never replaces an open one. */
  lemma UsedKeyIsNeverReissued(pub: PublicKey, seed: Seed, trace: seq<Sys>, i: nat, used: Event)
    requires Run(pub, seed, trace) && i + 1 < |trace| && CollisionFree(pub, trace[i].seeds)
    requires NewStep(pub, trace[i], trace[i + 1])
    ensures var m := trace[i].ram.value;
            && AddressOf(pub, m.seed, m.latest) !in m.table
            && (used in trace[i].history && used.Incremented? ==>
                  AddressOf(pub, m.seed, m.latest) != AddressOf(pub, used.seed, used.nonce))
  {
    DiskInvariant(pub, seed, trace, i);
    assert Legal(pub, trace, i);
    NewKeepsInv(pub, trace[i], trace[i + 1]);
  }

  /** Usage is conserved: at every point of every run the file, if readable, and the memory both
      count exactly the completed increments minus decrements of every key of their wallet. */
  lemma UsageIsConserved(pub: PublicKey, seed: Seed, trace: seq<Sys>, i: nat, n: uint64)
    requires Run(pub, seed, trace) && i < |trace| && CollisionFree(pub, trace[i].seeds)
    ensures var s, d := trace[i], Decode(trace[i].disk);
            && (d.Some? ==> Uses(d.value.table, AddressOf(pub, d.value.seed, n)) == Net(s.history, d.value.seed, n))
            && (s.ram.Some? ==>
                  && d.Some? && d.value.seed == s.ram.value.seed
                  && Uses(s.ram.value.table, AddressOf(pub, d.value.seed, n)) == Net(s.history, d.value.seed, n))
  {
    DiskInvariant(pub, seed, trace, i);
    var s := trace[i];
    if s.ram.Some? {
      RamCountsAgree(pub, s);
      assert Uses(s.ram.value.table, AddressOf(pub, s.ram.value.seed, n)) == Net(s.history, s.ram.value.seed, n);
    }
    if Decode(s.disk).Some? {
      var d := Decode(s.disk).value;
      assert Uses(d.table, AddressOf(pub, d.seed, n)) == Net(s.history, d.seed, n);
    }
  }

  /** So a key in use in a living process is in the file, with its nonce and net usage: a reload after a
      crash at that point finds it. */
  lemma NoAccountInUseIsLost(pub: PublicKey, seed: Seed, trace: seq<Sys>, i: nat, n: uint64)
    requires Run(pub, seed, trace) && i < |trace| && CollisionFree(pub, trace[i].seeds)
    requires trace[i].ram.Some? && Net(trace[i].history, trace[i].ram.value.seed, n) > 0
    ensures var s := trace[i];
            var a, net := AddressOf(pub, s.ram.value.seed, n), Net(s.history, s.ram.value.seed, n);
            && Decode(s.disk).Some? && a in Decode(s.disk).value.table && a in s.ram.value.table
            && net < TWO32 && Decode(s.disk).value.table[a] == s.ram.value.table[a] == Entry(n, net)
  {
    UsageIsConserved(pub, seed, trace, i, n);
    DiskInvariant(pub, seed, trace, i);
    var d, m := Decode(trace[i].disk).value, trace[i].ram.value;
    var a := AddressOf(pub, m.seed, n);
    assert a == AddressOf(pub, m.seed, m.table[a].nonce);
  }

  /** A restart that cannot read a good file keeps its entries exactly if the replacing write left the
      file alone. */
  lemma ReplacedExactlyIfWritten(s: Sys, t: Sys, seed: Seed, a: Address)
    requires ReplaceStep(s, t, seed) && Decode(s.disk).Some? && a in Decode(s.disk).value.table
    ensures Decode(t.disk).Some? && a in Decode(t.disk).value.table <==> t.disk == s.disk
  {
    ReplacedFile(s, t, seed);
  }

  /** The file holds the wallet of this seed. */
  predicate Holds(s: Sys, seed: Seed) {
    Decode(s.disk).Some? && Decode(s.disk).value.seed == seed
  }

  lemma SaveBringsNothingBack(s: Sys, t: Sys, m: Image, e: Event, lost: Seed)
    requires SaveStep(s, t, m, e) && |m.table| < TWO32 && m.seed != lost && !Holds(s, lost)
    ensures !Holds(t, lost)
  {
    if Saved(m, t.disk) {
      SavedDecodes(m, t.disk);
    } else {
      FailedWriteIsOldOrUnreadable(m, s.disk, t.disk);
    }
  }

  lemma LostSeedStep(pub: PublicKey, s: Sys, t: Sys, lost: Seed)
    requires Inv(pub, s) && NoWrap(s) && Next(pub, s, t) && lost in s.seeds && !Holds(s, lost)
    ensures !Holds(t, lost)
  {
    if seed :| ReplaceStep(s, t, seed) {
      ReplacedFile(s, t, seed);
    } else if a :| IncrementStep(s, t, a) {
      var m := s.ram.value;
      TableSizes(m, a);
      SaveBringsNothingBack(s, t, AfterIncrement(m, a), Incremented(m.seed, m.table[a].nonce), lost);
    } else if a :| DecrementStep(s, t, a) {
      var m := s.ram.value;
      TableSizes(m, a);
      SaveBringsNothingBack(s, t, AfterDecrement(m, a), Decremented(m.seed, m.table[a].nonce), lost);
    }
  }

  /** Once the file of a wallet is torn or replaced, that wallet is lost for good: no later file, and so
      no later process, ever has its seed again. */
  lemma {:induction false} LostSeedNeverReturns(pub: PublicKey, seed: Seed, trace: seq<Sys>, i: nat, j: nat, lost: Seed)
    requires Run(pub, seed, trace) && i <= j < |trace| && CollisionFree(pub, trace[j].seeds)
    requires lost in trace[i].seeds && !Holds(trace[i], lost)
    ensures !Holds(trace[j], lost)
    ensures trace[j].ram.Some? ==> trace[j].ram.value.seed != lost
  {
    DiskInvariant(pub, seed, trace, j);
    if i < j {
      SeedsGrow(pub, seed, trace, j - 1, j);
      SeedsGrow(pub, seed, trace, i, j - 1);
      LostSeedNeverReturns(pub, seed, trace, i, j - 1, lost);
      DiskInvariant(pub, seed, trace, j - 1);
      assert Legal(pub, trace, j - 1);
      LostSeedStep(pub, trace[j - 1], trace[j], lost);
    }
  }

  ghost predicate ReplacedAt(trace: seq<Sys>, k: int) {
    0 <= k < |trace| - 1 && Replacing(trace[k], trace[k + 1])
  }

  ghost predicate Replaced(trace: seq<Sys>, i: nat, j: nat) {
    exists k :: i <= k < j && ReplacedAt(trace, k)
  }

  /** A file that a torn write made unreadable stays as it is, and no process starts from it, until a
      restart that cannot read it at all replaces it. */
  lemma {:induction false} TornFileStaysDead(pub: PublicKey, seed: Seed, trace: seq<Sys>, i: nat, j: nat)
    requires Run(pub, seed, trace) && i <= j < |trace| && CollisionFree(pub, trace[j].seeds)
    requires Decode(trace[i].disk) == None && !Replaced(trace, i, j)
    ensures trace[j].ram == None && trace[j].disk == trace[i].disk
  {
    DiskInvariant(pub, seed, trace, j);
    if i < j {
      SeedsGrow(pub, seed, trace, j - 1, j);
      assert !Replaced(trace, i, j - 1);
      TornFileStaysDead(pub, seed, trace, i, j - 1);
      assert !ReplacedAt(trace, j - 1);
      assert Legal(pub, trace, j - 1);
    }
  }
}
