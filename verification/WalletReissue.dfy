/** Which accounts are handed out twice, and what happens when a counter wraps. */
module WalletReissue {
  import opened Bytes
  import opened WalletFormat
  import opened WalletMachine

  /** A process of the wallet with this seed is alive. */
  predicate Up(s: Sys, seed: Seed) {
    s.ram.Some? && s.ram.value.seed == seed
  }

  ghost predicate HandsOut(pub: PublicKey, s: Sys, t: Sys, seed: Seed, n: uint64) {
    NewStep(pub, s, t) && Up(s, seed) && s.ram.value.latest == n
  }

  /** A restart that found a counter not above `n` in the file. */
  ghost predicate ReloadsBelow(s: Sys, t: Sys, seed: Seed, n: uint64) {
    ReloadStep(s, t) && Up(t, seed) && t.ram.value.latest <= n
  }

  ghost predicate HandsOutAt(pub: PublicKey, trace: seq<Sys>, l: int, seed: Seed, n: uint64) {
    0 <= l < |trace| - 1 && HandsOut(pub, trace[l], trace[l + 1], seed, n)
  }

  ghost predicate ReloadsAt(trace: seq<Sys>, k: int, seed: Seed, n: uint64) {
    0 <= k < |trace| - 1 && ReloadsBelow(trace[k], trace[k + 1], seed, n)
  }

  ghost predicate HandedOut(pub: PublicKey, trace: seq<Sys>, i: nat, j: nat, seed: Seed, n: uint64) {
    exists l :: i <= l < j && HandsOutAt(pub, trace, l, seed, n)
  }

  ghost predicate ReloadedBelow(trace: seq<Sys>, i: nat, j: nat, seed: Seed, n: uint64) {
    exists k :: i <= k < j && ReloadsAt(trace, k, seed, n)
  }

  /** Only a reload brings the counter down. */
  lemma CounterStep(pub: PublicKey, s: Sys, t: Sys, seed: Seed, n: uint64)
    requires NoWrap(s) && Next(pub, s, t) && seed in s.seeds
    requires Up(t, seed) && t.ram.value.latest <= n
    ensures ReloadsBelow(s, t, seed, n) || (Up(s, seed) && s.ram.value.latest <= n)
  {
  }

  lemma {:induction false} CounterDropsByReload(
      pub: PublicKey, first: Seed, trace: seq<Sys>, i: nat, j: nat, seed: Seed, n: uint64)
    requires Run(pub, first, trace) && i <= j < |trace| && seed in trace[i].seeds
    requires Up(trace[i], seed) && trace[i].ram.value.latest > n
    requires Up(trace[j], seed) && trace[j].ram.value.latest <= n
    ensures ReloadedBelow(trace, i, j, seed, n)
  {
    assert i < j;
    SeedsGrow(pub, first, trace, i, j - 1);
    assert Legal(pub, trace, j - 1);
    CounterStep(pub, trace[j - 1], trace[j], seed, n);
    if !ReloadsAt(trace, j - 1, seed, n) {
      CounterDropsByReload(pub, first, trace, i, j - 1, seed, n);
    }
  }

  /** Neither memory nor file has a counter above `n`. */
  ghost predicate Low(s: Sys, seed: Seed, n: uint64) {
    && seed in s.seeds
    && (Up(s, seed) ==> s.ram.value.latest <= n)
    && (Holds(s, seed) ==> Decode(s.disk).value.latest <= n)
  }

  lemma SaveStaysLow(s: Sys, t: Sys, m: Image, e: Event, seed: Seed, n: uint64)
    requires Low(s, seed, n) && SaveStep(s, t, m, e) && |m.table| < TWO32
    requires m.seed == seed ==> m.latest <= n
    ensures Low(t, seed, n)
  {
    if Saved(m, t.disk) {
      SavedDecodes(m, t.disk);
    } else {
      FailedWriteIsOldOrUnreadable(m, s.disk, t.disk);
    }
  }

  lemma LowStep(pub: PublicKey, s: Sys, t: Sys, seed: Seed, n: uint64)
    requires NoWrap(s) && Next(pub, s, t) && Low(s, seed, n) && !HandsOut(pub, s, t, seed, n)
    ensures Low(t, seed, n)
  {
    if a :| IncrementStep(s, t, a) {
      var m := s.ram.value;
      TableSizes(m, a);
      SaveStaysLow(s, t, AfterIncrement(m, a), Incremented(m.seed, m.table[a].nonce), seed, n);
    } else if a :| DecrementStep(s, t, a) {
      var m := s.ram.value;
      TableSizes(m, a);
      SaveStaysLow(s, t, AfterDecrement(m, a), Decremented(m.seed, m.table[a].nonce), seed, n);
    } else if x :| ReplaceStep(s, t, x) {
      ReplacedFile(s, t, x);
    }
  }

  lemma {:induction false} StaysLow(pub: PublicKey, first: Seed, trace: seq<Sys>, k: nat, j: nat, seed: Seed, n: uint64)
    requires Run(pub, first, trace) && k <= j < |trace|
    requires Low(trace[k], seed, n) && !HandedOut(pub, trace, k, j, seed, n)
    ensures Low(trace[j], seed, n)
  {
    if k < j {
      assert !HandedOut(pub, trace, k, j - 1, seed, n);
      StaysLow(pub, first, trace, k, j - 1, seed, n);
      assert !HandsOutAt(pub, trace, j - 1, seed, n);
      assert Legal(pub, trace, j - 1);
      LowStep(pub, trace[j - 1], trace[j], seed, n);
    }
  }

  /** After a reload below `n` the counter can only get past `n` by handing out `n`. */
  lemma RisesByHandingOut(pub: PublicKey, first: Seed, trace: seq<Sys>, k: nat, j: nat, seed: Seed, n: uint64)
    requires Run(pub, first, trace) && k < j < |trace| && seed in trace[k].seeds
    requires ReloadsAt(trace, k, seed, n)
    requires Up(trace[j], seed) && trace[j].ram.value.latest > n
    ensures HandedOut(pub, trace, k + 1, j, seed, n)
  {
    SeedsGrow(pub, first, trace, k, k + 1);
    assert Low(trace[k + 1], seed, n);
    if !HandedOut(pub, trace, k + 1, j, seed, n) {
      StaysLow(pub, first, trace, k + 1, j, seed, n);
    }
  }

  /** A key is handed out twice exactly if a reload in between found an old counter: once nonce `n` was
      handed out, and by the time the counter is beyond `n`, it has been handed out again if and only if
      some restart since then read a counter not above `n` from the file. Any other operations, crashes
      and restarts may happen in between. */
  lemma ReissuedExactlyAfterOldReload(
      pub: PublicKey, first: Seed, trace: seq<Sys>, i: nat, j: nat, seed: Seed, n: uint64)
    requires Run(pub, first, trace) && i < j < |trace| && CollisionFree(pub, trace[j].seeds)
    requires HandsOutAt(pub, trace, i, seed, n)
    requires Up(trace[j], seed) && trace[j].ram.value.latest > n
    ensures HandedOut(pub, trace, i + 1, j, seed, n) <==> ReloadedBelow(trace, i + 1, j, seed, n)
  {
    SeedIsKnown(pub, first, trace, i, j);
    assert Legal(pub, trace, i);
    if l :| i + 1 <= l < j && HandsOutAt(pub, trace, l, seed, n) {
      CounterDropsByReload(pub, first, trace, i + 1, l, seed, n);
    }
    if k :| i + 1 <= k < j && ReloadsAt(trace, k, seed, n) {
      SeedsGrow(pub, first, trace, i + 1, k);
      RisesByHandingOut(pub, first, trace, k, j, seed, n);
    }
  }

  lemma SeedIsKnown(pub: PublicKey, first: Seed, trace: seq<Sys>, i: nat, j: nat)
    requires Run(pub, first, trace) && i < j < |trace| && CollisionFree(pub, trace[j].seeds)
    requires trace[i].ram.Some?
    ensures trace[i].ram.value.seed in trace[i + 1].seeds
  {
    SeedsGrow(pub, first, trace, i, j);
    DiskInvariant(pub, first, trace, i);
    SeedsGrow(pub, first, trace, i, i + 1);
  }

  // ---- The smallest run in which it happens ----

  lemma FirstAccountIsSmall(pub: PublicKey, s: Sys, seed: Seed)
    requires s.ram == Some(AfterNew(pub, NewWallet(seed)))
    ensures NoWrap(s)
  {
    var t := AfterNew(pub, NewWallet(seed)).table;
    assert t.Keys == {AddressOf(pub, seed, 0)};
    assert |t| == |t.Keys| == 1;
  }

  lemma {:induction false} Chain(pub: PublicKey, seed: Seed, trace: seq<Sys>, t: Sys)
    requires Run(pub, seed, trace) && NoWrap(trace[|trace| - 1]) && Next(pub, trace[|trace| - 1], t)
    ensures Run(pub, seed, trace + [t])
  {
    forall i ensures Legal(pub, trace + [t], i) {
      assert Legal(pub, trace, i);
    }
  }

  /** An account that was handed out but not used before a crash is handed out a second time. */
  lemma UnusedKeyIsReissued(pub: PublicKey, seed: Seed) returns (trace: seq<Sys>)
    ensures Run(pub, seed, trace)
    ensures trace[|trace| - 1].history == [Created(seed, 0), Created(seed, 0)]
  {
    var m, once := NewWallet(seed), [Created(seed, 0)];
    NewWalletSaved(seed);
    var s0 := Sys(Some(m), Encode(m, []), {seed}, []);
    var s1 := s0.(ram := Some(AfterNew(pub, m)), history := once);
    var s2 := s1.(ram := None);
    var s3 := s2.(ram := Some(m));
    var s4 := s3.(ram := Some(AfterNew(pub, m)), history := once + once);
    trace := [s0];
    assert NewStep(pub, s0, s1);
    Chain(pub, seed, trace, s1);
    FirstAccountIsSmall(pub, s1, seed);
    assert CrashStep(s1, s2);
    Chain(pub, seed, trace + [s1], s2);
    assert ReloadStep(s2, s3);
    Chain(pub, seed, trace + [s1] + [s2], s3);
    assert NewStep(pub, s3, s4);
    Chain(pub, seed, trace + [s1] + [s2] + [s3], s4);
    trace := trace + [s1] + [s2] + [s3] + [s4];
  }

  // ---- Counters that wrap ----

  /** The nonce counter wraps, and the account with nonce 0 loses its use count. */
  lemma NonceWrapOverwrites(pub: PublicKey, m: Image)
    requires m.latest == TWO64 - 1 && AddressOf(pub, m.seed, 0) in m.table
    ensures var m' := AfterNew(pub, AfterNew(pub, m));
            && AddressOf(pub, m.seed, 0) in m'.table
            && m'.table[AddressOf(pub, m.seed, 0)] == Entry(0, 0)
  {
    assert AfterNew(pub, m).latest == 0;
  }

  /** A use counter wraps, so that 2^32 + 1 uses and one release delete the account. */
  lemma UseCountWrapDeletes(m: Image, a: Address)
    requires a in m.table && m.table[a].useCount == TWO32 - 1
    ensures a !in AfterDecrement(AfterIncrement(AfterIncrement(m, a), a), a).table
  {
    assert AfterIncrement(m, a).table[a].useCount == 0;
  }
}
