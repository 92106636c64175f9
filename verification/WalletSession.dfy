/** A process that uses FsWallet, command by command: whatever it does, and wherever it dies, the class
    follows a run of WalletMachine, and its keys on the heap stay intact or are wiped. */
module WalletSession {
  import opened Bytes
  import opened WalletFormat
  import opened WalletMachine
  import opened Wallet

  /** What the program, or the world, does next. A restart may be unable to read the file; it then
      draws a seed from `gen` and its write ends as `w`. */
  datatype Command =
    | New
    | Open(a: Address)
    | LockEverything
    | Increment(a: Address, w: WriteOutcome)
    | Decrement(a: Address, w: WriteOutcome)
    | Kill
    | Restart(readable: bool, gen: seq<byte>, w: WriteOutcome)

  ghost predicate RestartOf(s: Sys, t: Sys, readable: bool, gen: seq<byte>, w: WriteOutcome) {
    if readable then ReloadStep(s, t)
    else if |gen| < SEED_LEN then t == s
    else
      && ReplaceStep(s, t, gen[..SEED_LEN])
      && (t.ram.Some? <==> w.Complete?)
      && (Lands(w) ==> Saved(NewWallet(gen[..SEED_LEN]), t.disk))
      && (w.NotOpened? ==> t.disk == s.disk)
      && (w.Torn? ==> Decode(t.disk) == None)
  }

  /** The process survives a complete write, and the change counts as made once all bytes are written. */
  ghost predicate EndsAs(s: Sys, t: Sys, w: WriteOutcome) {
    && (t.ram.Some? <==> w.Complete?)
    && |t.history| == |s.history| + (if Lands(w) then 1 else 0)
    && (w.NotOpened? ==> t.disk == s.disk)
  }

  /** The step of the machine that belongs to a command. A command to a process that is down, and a
      restart of one that is up, change nothing; a panic takes the process down. */
  ghost predicate StepOf(pub: PublicKey, c: Command, s: Sys, t: Sys) {
    match c
    case Kill => CrashStep(s, t)
    case Restart(readable, gen, w) => if s.ram.Some? then t == s else RestartOf(s, t, readable, gen, w)
    case New => if s.ram.None? then t == s else NewStep(pub, s, t)
    case Open(_) => KeyStep(s, t)
    case LockEverything => KeyStep(s, t)
    case Increment(a, w) =>
      if s.ram.None? then t == s
      else if a !in s.ram.value.table then CrashStep(s, t)
      else IncrementStep(s, t, a) && EndsAs(s, t, w)
    case Decrement(a, w) =>
      if s.ram.None? then t == s
      else if a !in s.ram.value.table || s.ram.value.table[a].useCount == 0 then CrashStep(s, t)
      else DecrementStep(s, t, a) && EndsAs(s, t, w)
  }

  lemma StepIsNext(pub: PublicKey, c: Command, s: Sys, t: Sys)
    requires StepOf(pub, c, s, t)
    ensures Next(pub, s, t)
  {
  }

  /** A key in use survives a restart exactly if the file was read, or nothing was written over it. */
  lemma SurvivesRestart(pub: PublicKey, s: Sys, t: Sys, readable: bool, gen: seq<byte>, w: WriteOutcome, n: uint64)
    requires Inv(pub, s) && RestartOf(s, t, readable, gen, w) && s.ram.None? && Decode(s.disk).Some?
    requires Net(s.history, Decode(s.disk).value.seed, n) > 0
    ensures var a := AddressOf(pub, Decode(s.disk).value.seed, n);
            Decode(t.disk).Some? && a in Decode(t.disk).value.table <==> readable || |gen| < SEED_LEN || w.NotOpened?
  {
    var d := Decode(s.disk).value;
    assert Uses(d.table, AddressOf(pub, d.seed, n)) == Net(s.history, d.seed, n);
    if !readable && |gen| >= SEED_LEN {
      ReplacedFile(s, t, gen[..SEED_LEN]);
    }
  }

  /** The seed that a command draws. */
  function SeedOf(c: Command): Option<Seed> {
    if c.Restart? && !c.readable && |c.gen| >= SEED_LEN then Some(c.gen[..SEED_LEN]) else None
  }

  function SeedsOf(first: Seed, program: seq<Command>): set<Seed> {
    if program == [] then {first}
    else
      var n := |program| - 1;
      SeedsOf(first, program[..n]) + if SeedOf(program[n]).Some? then {SeedOf(program[n]).value} else {}
  }

  /** Every drawn seed is new: the assumption on the source of random bytes. */
  ghost predicate FreshSeeds(first: Seed, program: seq<Command>) {
    forall i {:trigger program[i]} :: 0 <= i < |program| ==> FreshSeed(first, program[..i], program[i])
  }

  predicate FreshSeed(first: Seed, before: seq<Command>, c: Command) {
    SeedOf(c).Some? ==> SeedOf(c).value !in SeedsOf(first, before)
  }

  lemma SeedsSoFar(first: Seed, program: seq<Command>, i: nat)
    requires i < |program|
    ensures SeedsOf(first, program[..i + 1])
         == SeedsOf(first, program[..i]) + if SeedOf(program[i]).Some? then {SeedOf(program[i]).value} else {}
  {
    assert program[..i + 1][..i] == program[..i];
  }

  lemma {:induction false} SeedsOfPrefix(first: Seed, program: seq<Command>, i: nat)
    requires i <= |program|
    ensures SeedsOf(first, program[..i]) <= SeedsOf(first, program)
    decreases |program| - i
  {
    if i < |program| {
      SeedsSoFar(first, program, i);
      SeedsOfPrefix(first, program, i + 1);
    } else {
      assert program[..i] == program;
    }
  }

  ghost function Footprint(wallet: FsWallet?): set<object>
    reads wallet
  {
    if wallet == null then {} else {wallet} + wallet.openAccs.Values + wallet.issued.Keys
  }

  /** The heap is in state `s`: no wallet while the process is down. */
  ghost predicate Mirrors(pub: PublicKey, file: Disk, wallet: FsWallet?, s: Sys)
    reads file, Footprint(wallet), wallet
  {
    && file.content == Some(s.disk)
    && if wallet == null then s.ram == None
       else wallet.pub == pub && wallet.file == file && wallet.Valid() && wallet.Wiped() && s.ram == Some(wallet.Durable())
  }

  predicate Roomy(wallet: FsWallet)
    reads wallet, wallet.openAccs.Values
  {
    && wallet.latestAcc < TWO64 - 1 && |wallet.openAccs| < TWO32
    && forall a :: a in wallet.openAccs ==> wallet.openAccs[a].useCount < TWO32 - 1
  }

  /** Whether no counter is about to wrap. */
  method HasRoom(pub: PublicKey, file: Disk, wallet: FsWallet?, ghost s: Sys) returns (room: bool)
    requires Mirrors(pub, file, wallet, s)
    ensures room <==> NoWrap(s)
  {
    if wallet == null { return true; }
    assert wallet.Table().Keys == wallet.openAccs.Keys;
    assert |wallet.Table()| == |wallet.Table().Keys| == |wallet.openAccs.Keys| == |wallet.openAccs|;
    assert forall a :: a in wallet.openAccs ==> wallet.Table()[a].useCount == wallet.openAccs[a].useCount;
    room := Roomy(wallet);
  }

  /** What every command relies on. */
  ghost predicate Ready(pub: PublicKey, file: Disk, wallet: FsWallet?, s: Sys)
    reads file, Footprint(wallet), wallet
  {
    Mirrors(pub, file, wallet, s) && CollisionFree(pub, s.seeds) && Inv(pub, s) && NoWrap(s)
  }

  method DoNew(file: Disk, wallet: FsWallet, ghost s: Sys) returns (ghost t: Sys)
    requires Ready(wallet.pub, file, wallet, s)
    modifies wallet
    ensures Mirrors(wallet.pub, file, wallet, t) && NewStep(wallet.pub, s, t)
    ensures fresh(Footprint(wallet) - old(Footprint(wallet)))
  {
    var m := s.ram.value;
    NewAddressIsFree(wallet.pub, m, s.seeds);
    t := s.(ram := Some(AfterNew(wallet.pub, m)), history := s.history + [Created(m.seed, m.latest)]);
    var _ := wallet.NewAccount();
  }

  /** A panic takes the process down. */
  method DoIncrement(file: Disk, wallet: FsWallet, a: Address, w: WriteOutcome, ghost s: Sys) returns (alive: bool, ghost t: Sys)
    requires Mirrors(wallet.pub, file, wallet, s)
    modifies file, wallet.openAccs.Values
    ensures Mirrors(wallet.pub, file, if alive then wallet else null, t) && StepOf(wallet.pub, Increment(a, w), s, t)
    ensures Footprint(wallet) == old(Footprint(wallet))
  {
    ghost var known := a in wallet.openAccs;
    var r := wallet.IncrementUsage(a, w);
    alive := r == Returned;
    if !known {
      t := s.(ram := None);
    } else {
      var m, e := AfterIncrement(s.ram.value, a), Incremented(s.ram.value.seed, s.ram.value.table[a].nonce);
      StoredIsSaveStep(s, m, e, file.content, w);
      t := s.(ram := if w.Complete? then Some(m) else None, disk := file.content.value,
              history := if Lands(w) then s.history + [e] else s.history);
      assert IncrementStep(s, t, a);
    }
  }

  method DoDecrement(file: Disk, wallet: FsWallet, a: Address, w: WriteOutcome, ghost s: Sys) returns (alive: bool, ghost t: Sys)
    requires Mirrors(wallet.pub, file, wallet, s)
    modifies file, wallet, wallet.openAccs.Values, wallet.issued.Keys
    ensures Mirrors(wallet.pub, file, if alive then wallet else null, t) && StepOf(wallet.pub, Decrement(a, w), s, t)
    ensures Footprint(wallet) <= old(Footprint(wallet))
  {
    ghost var known := a in wallet.openAccs && wallet.openAccs[a].useCount > 0;
    var r := wallet.DecrementUsage(a, w);
    alive := r == Returned;
    if !known {
      t := s.(ram := None);
    } else {
      var m, e := AfterDecrement(s.ram.value, a), Decremented(s.ram.value.seed, s.ram.value.table[a].nonce);
      StoredIsSaveStep(s, m, e, file.content, w);
      t := s.(ram := if w.Complete? then Some(m) else None, disk := file.content.value,
              history := if Lands(w) then s.history + [e] else s.history);
      assert DecrementStep(s, t, a);
    }
  }

  method DoRestart(pub: PublicKey, file: Disk, readable: bool, gen: seq<byte>, w: WriteOutcome, ghost s: Sys)
      returns (wallet: FsWallet?, ghost t: Sys)
    requires Mirrors(pub, file, null, s)
    requires !readable && |gen| >= SEED_LEN ==> gen[..SEED_LEN] !in s.seeds
    modifies file
    ensures Mirrors(pub, file, wallet, t) && RestartOf(s, t, readable, gen, w)
    ensures fresh(Footprint(wallet))
  {
    wallet := CreateOrLoadFsWallet(pub, file, readable, gen, w);
    if readable {
      t := s.(ram := Decode(s.disk));
    } else if |gen| < SEED_LEN {
      t := s;
    } else {
      var m := NewWallet(gen[..SEED_LEN]);
      StoredIsWrite(m, s.disk, file.content, w);
      t := Sys(if w.Complete? then Some(m) else None, file.content.value, s.seeds + {m.seed}, s.history);
    }
  }

  /** Unlock and LockAll leave the durable state alone. */
  method DoOpen(file: Disk, wallet: FsWallet, a: Address, ghost s: Sys)
    requires Mirrors(wallet.pub, file, wallet, s)
    modifies wallet, wallet.openAccs.Values
    ensures Mirrors(wallet.pub, file, wallet, s)
    ensures fresh(Footprint(wallet) - old(Footprint(wallet)))
  {
    var _ := wallet.Unlock(a);
  }

  method DoLock(file: Disk, wallet: FsWallet, ghost s: Sys)
    requires Mirrors(wallet.pub, file, wallet, s)
    modifies wallet.openAccs.Values, wallet.issued.Keys
    ensures Mirrors(wallet.pub, file, wallet, s) && Footprint(wallet) == old(Footprint(wallet))
  {
    wallet.LockAll();
  }

  /** A command to a running process. */
  method DoUp(file: Disk, wallet: FsWallet, c: Command, ghost s: Sys) returns (alive: bool, ghost t: Sys)
    requires Ready(wallet.pub, file, wallet, s) && c != Kill
    modifies file, Footprint(wallet)
    ensures Mirrors(wallet.pub, file, if alive then wallet else null, t) && StepOf(wallet.pub, c, s, t)
    ensures fresh(Footprint(wallet) - old(Footprint(wallet)))
  {
    alive, t := true, s;
    match c
    case New => t := DoNew(file, wallet, s);
    case Open(a) => DoOpen(file, wallet, a, s);
    case LockEverything => DoLock(file, wallet, s);
    case Increment(a, w) => alive, t := DoIncrement(file, wallet, a, w, s);
    case Decrement(a, w) => alive, t := DoDecrement(file, wallet, a, w, s);
    case Restart(_, _, _) =>
  }

  /** Every command makes its own step of the machine. The process owns the objects of its wallet. */
  method Do(pub: PublicKey, file: Disk, wallet: FsWallet?, c: Command, ghost s: Sys, ghost owned: set<object>)
      returns (next: FsWallet?, ghost t: Sys, ghost owns: set<object>)
    requires Ready(pub, file, wallet, s) && owned == Footprint(wallet)
    requires SeedOf(c).Some? ==> SeedOf(c).value !in s.seeds
    modifies file, owned
    ensures Mirrors(pub, file, next, t) && StepOf(pub, c, s, t)
    ensures owns == Footprint(next) && fresh(owns - owned)
  {
    next, t := wallet, s;
    if c == Kill {
      next, t := null, s.(ram := None);
    } else if wallet == null {
      if c.Restart? { next, t := DoRestart(pub, file, c.readable, c.gen, c.w, s); }
    } else {
      var alive;
      alive, t := DoUp(file, wallet, c, s);
      if !alive { next := null; }
    }
    owns := Footprint(next);
  }

  /** A new wallet on a file that did not exist. */
  method Start(pub: PublicKey, gen: Seed) returns (file: Disk, wallet: FsWallet, ghost s: Sys)
    ensures Init(gen, s) && Mirrors(pub, file, wallet, s)
    ensures fresh(file) && fresh(Footprint(wallet))
  {
    file := new Disk(None);
    var made := CreateOrLoadFsWallet(pub, file, true, gen, Complete);
    wallet := made;
    assert gen[..SEED_LEN] == gen;
    ghost var m := NewWallet(gen);
    ghost var order :| Enumerates(order, m.table) && file.content == Some(Encode(m, order));
    EnumerationSize(order, m.table);
    s := Sys(Some(m), Encode(m, []), {gen}, []);
  }

  /** Position k of the run is the step of the k-th command. */
  ghost predicate Followed(pub: PublicKey, program: seq<Command>, trace: seq<Sys>, k: int) {
    0 <= k < |trace| - 1 && k < |program| ==> StepOf(pub, program[k], trace[k], trace[k + 1])
  }

  /** The machine has run through the first commands of the program. */
  ghost predicate Played(pub: PublicKey, first: Seed, program: seq<Command>, trace: seq<Sys>) {
    && Run(pub, first, trace) && |trace| <= |program| + 1
    && trace[|trace| - 1].seeds <= SeedsOf(first, program[..|trace| - 1])
    && forall k :: Followed(pub, program, trace, k)
  }

  lemma PlayGoesOn(pub: PublicKey, first: Seed, program: seq<Command>, trace: seq<Sys>, t: Sys)
    requires Played(pub, first, program, trace) && |trace| <= |program| && NoWrap(trace[|trace| - 1])
    requires StepOf(pub, program[|trace| - 1], trace[|trace| - 1], t)
    ensures Played(pub, first, program, trace + [t])
  {
    var n := |trace| - 1;
    StepIsNext(pub, program[n], trace[n], t);
    forall i ensures Legal(pub, trace + [t], i) {
      assert Legal(pub, trace, i);
    }
    forall k ensures Followed(pub, program, trace + [t], k) {
      assert Followed(pub, program, trace, k);
    }
    SeedsSoFar(first, program, n);
  }

  lemma SeedsAreFine(pub: PublicKey, first: Seed, program: seq<Command>, trace: seq<Sys>)
    requires Played(pub, first, program, trace) && |trace| <= |program|
    requires FreshSeeds(first, program) && CollisionFree(pub, SeedsOf(first, program))
    ensures CollisionFree(pub, trace[|trace| - 1].seeds)
    ensures SeedOf(program[|trace| - 1]).Some? ==> SeedOf(program[|trace| - 1]).value !in trace[|trace| - 1].seeds
  {
    SeedsOfPrefix(first, program, |trace| - 1);
    assert FreshSeed(first, program[..|trace| - 1], program[|trace| - 1]);
  }

  /** One command after a run of the machine continues it, unless a counter is about to wrap. */
  method DoAfter(
      pub: PublicKey, file: Disk, wallet: FsWallet?, program: seq<Command>, done: nat,
      ghost first: Seed, ghost trace: seq<Sys>, ghost s: Sys, ghost owned: set<object>)
      returns (room: bool, next: FsWallet?, ghost longer: seq<Sys>, ghost t: Sys, ghost owns: set<object>)
    requires done < |program| && FreshSeeds(first, program) && CollisionFree(pub, SeedsOf(first, program))
    requires Played(pub, first, program, trace) && |trace| == done + 1 && trace[done] == s
    requires Mirrors(pub, file, wallet, s) && owned == Footprint(wallet)
    modifies file, owned
    ensures Played(pub, first, program, longer) && Mirrors(pub, file, next, t)
    ensures owns == Footprint(next) && fresh(owns - owned)
    ensures if room then longer == trace + [t] else longer == trace && t == s && !NoWrap(s)
  {
    room := HasRoom(pub, file, wallet, s);
    next, longer, t, owns := wallet, trace, s, owned;
    if room {
      SeedsAreFine(pub, first, program, trace);
      DiskInvariant(pub, first, trace, done);
      next, t, owns := Do(pub, file, wallet, program[done], s, owned);
      PlayGoesOn(pub, first, program, trace, t);
      longer := trace + [t];
    }
  }

  /** Any program on a new wallet, with any crashes, failed writes and restarts, makes the run of the
      machine in which every command makes its step, until a counter is about to wrap. At its end,
      whenever the process is up, every key in the table is intact and every other key array it ever
      handed out is wiped. */
  method Play(pub: PublicKey, gen: Seed, program: seq<Command>)
      returns (file: Disk, wallet: FsWallet?, done: nat, ghost trace: seq<Sys>, ghost s: Sys)
    requires FreshSeeds(gen, program) && CollisionFree(pub, SeedsOf(gen, program))
    ensures |trace| == done + 1 <= |program| + 1 && Played(pub, gen, program, trace) && trace[done] == s
    ensures Mirrors(pub, file, wallet, s)
    ensures done < |program| ==> !NoWrap(s)
  {
    file, wallet, s := Start(pub, gen);
    trace, done := [s], 0;
    assert program[..0] == [];
    ghost var owned: set<object> := Footprint(wallet);
    while done < |program|
      invariant |trace| == done + 1 <= |program| + 1 && Played(pub, gen, program, trace) && trace[done] == s
      invariant fresh(file) && fresh(owned) && owned == Footprint(wallet) && Mirrors(pub, file, wallet, s)
    {
      var room;
      room, wallet, trace, s, owned := DoAfter(pub, file, wallet, program, done, gen, trace, s, owned);
      if !room { return; }
      done := done + 1;
    }
  }
}
