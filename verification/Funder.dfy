/** channel/funder.go and connector/services.go: the amounts that are moved, the order of the calls of
    one funder, and what any number of funders do to the ledger together. */
module Funder {
  import opened Bytes
  import opened Backend
  import opened FundedEvents
  import Encoding

  const TRANSFER_FEE := 10000

  datatype Transfer = Transfer(amount: uint64, fee: uint64)

  /** BuildTransfer: the balance travels with one more fee, which pays for the later withdrawal. */
  function BuildTransfer(bal: int, fee: int): Option<Transfer> {
    match (MakeBalance(bal), MakeBalance(fee))
    case (Ok(b), Ok(f)) => Some(Transfer((b + f) % TWO64, f))
    case _ => None
  }

  /** The 64-bit sum never wraps, and a balance or fee out of range is refused. */
  lemma TransferIsExact(bal: int, fee: int)
    ensures BuildTransfer(bal, fee).Some? <==> 0 <= bal <= Encoding.MAX_BALANCE && 0 <= fee <= Encoding.MAX_BALANCE
    ensures BuildTransfer(bal, fee).Some? ==> BuildTransfer(bal, fee).value == Transfer(bal + fee, fee)
  {
  }

  // ---- One funder ----

  datatype FundingReq = FundingReq(agreement: seq<seq<int>>, balances: seq<seq<int>>, idx: nat, parts: seq<seq<byte>>, cid: Bytes32)

  datatype Call = Transferred(t: Transfer) | Notified(block: uint64) | Deposited(participant: seq<byte>, cid: Bytes32)

  /** What the ledger, the canister and the polls answer; None and false stand for errors. */
  datatype World = World(block: Option<uint64>, notified: bool, deposited: bool, poll: nat -> Poll)

  datatype Outcome = Nil | Failure | Panicking

  /** The agreement must equal the initial balances, but only where it has a single row. */
  predicate Compatible(req: FundingReq)
    requires req.idx < |req.parts|
  {
    (req.agreement == req.balances || |req.agreement| != 1) && |req.parts[req.idx]| == 32
  }

  /** The calls of a funder whose requests all succeed. */
  function AllCalls(req: FundingReq, addr: seq<byte>, block: uint64): seq<Call>
    requires |req.agreement| > 0 && req.idx < |req.agreement[0]|
    requires BuildTransfer(req.agreement[0][req.idx], TRANSFER_FEE).Some?
  {
    [Transferred(BuildTransfer(req.agreement[0][req.idx], TRANSFER_FEE).value), Notified(block), Deposited(addr, req.cid)]
  }

  /** Fund. Each call is made only after the one before it succeeded. A transfer that the ledger
      refuses is not an error but a panic: the missing result is read without a check. */
  method Fund(req: FundingReq, addr: seq<byte>, w: World, maxIters: nat) returns (r: Outcome, calls: seq<Call>)
    requires |req.agreement| > 0 && req.idx < |req.agreement[0]| && req.idx < |req.parts|
    ensures r == Nil <==>
      && Compatible(req) && BuildTransfer(req.agreement[0][req.idx], TRANSFER_FEE).Some?
      && w.block.Some? && w.notified && w.deposited
      && PollsShow(w.poll, maxIters, addr, req.agreement[0][req.idx])
    ensures calls != [] ==>
      && Compatible(req) && BuildTransfer(req.agreement[0][req.idx], TRANSFER_FEE).Some?
      && (if w.block.Some? then calls <= AllCalls(req, addr, w.block.value)
          else |calls| == 1 && r == Panicking && calls[0] == AllCalls(req, addr, 0)[0])
    ensures r == Nil ==> calls == AllCalls(req, addr, w.block.value)
    ensures var sent := Compatible(req) && BuildTransfer(req.agreement[0][req.idx], TRANSFER_FEE).Some?;
            && (calls == [] <==> !sent)
            && (r == Panicking <==> sent && w.block == None)
            && (sent && w.block.Some? ==> calls == AllCalls(req, addr, w.block.value)[..if w.notified then 3 else 2])
    ensures var bal := req.agreement[0][req.idx];
            && (calls == [] <==>
                  || (|req.agreement| == 1 && req.agreement != req.balances)
                  || |req.parts[req.idx]| != 32 || bal < 0 || bal > 0x4000_0000)
            && (|calls| > 0 ==> calls[0] == Transferred(Transfer(bal + 10000, 10000)))
            && (|calls| > 1 ==> w.block.Some? && calls[1] == Notified(w.block.value))
            && (|calls| > 2 ==> w.notified && calls[2] == Deposited(addr, req.cid))
            && |calls| <= 3 && forall i :: 0 <= i < |calls| && calls[i].Deposited? ==> i == 2
  {
    TransferIsExact(req.agreement[0][req.idx], TRANSFER_FEE);
    calls := [];
    if req.agreement != req.balances && |req.agreement| == 1 { return Failure, calls; }
    if |req.parts[req.idx]| != 32 { return Failure, calls; }
    var bal := req.agreement[0][req.idx];
    var t := BuildTransfer(bal, TRANSFER_FEE);
    if t == None { return Failure, calls; }
    calls := [Transferred(t.value)];
    if w.block == None { return Panicking, calls; }
    calls := calls + [Notified(w.block.value)];
    if !w.notified { return Failure, calls; }
    calls := calls + [Deposited(addr, req.cid)];
    if !w.deposited { return Failure, calls; }
    var a, _ := QueryFundingState(w.poll, maxIters, addr, bal);
    r := if a == Done then Nil else Failure;
  }
}

/** The ledger under any number of fundings, by any number of payers, whose calls interleave in every
    way. Each call is one step, since the funding calls to the canister hold a common lock. */
module FundingLedger {
  import opened Bytes
  import opened Backend
  import opened FundedEvents
  import opened Funder

  /** Stuck: the transfer went through, but a later call failed. */
  datatype Stage = Ready | Refused | Paid | Known | Credited | Stuck

  /** A channel funded from the ledger account of `payer`. */
  datatype Order = Order(payer: nat, bal: int, fee: int)

  datatype Sys = Sys(ledger: seq<nat>, perun: nat, burned: nat, stages: seq<Stage>)

  predicate HasPaid(s: Stage) { s != Ready && s != Refused }

  ghost predicate Init(orders: seq<Order>, s: Sys) {
    && |s.stages| == |orders|
    && forall i :: 0 <= i < |orders| ==> s.stages[i] == Ready && orders[i].payer < |s.ledger|
  }

  /** The state after the ledger has taken amount and fee from the sender, credited the amount and burned
      the fee. */
  function AfterTransfer(o: Order, t: Transfer, s: Sys, i: nat): Sys
    requires i < |s.stages| && o.payer < |s.ledger| && t.amount + t.fee <= s.ledger[o.payer]
  {
    Sys(s.ledger[o.payer := s.ledger[o.payer] - t.amount - t.fee], s.perun + t.amount, s.burned + t.fee, s.stages[i := Paid])
  }

  ghost predicate TransferStep(orders: seq<Order>, s: Sys, t: Sys, i: nat) {
    && i < |s.stages| == |orders| && s.stages[i] == Ready && orders[i].payer < |s.ledger|
    && var b := BuildTransfer(orders[i].bal, orders[i].fee);
       && b.Some? && b.value.amount + b.value.fee <= s.ledger[orders[i].payer]
       && t == AfterTransfer(orders[i], b.value, s, i)
  }

  ghost predicate StageStep(s: Sys, t: Sys, i: nat) {
    && i < |s.stages|
    && (|| (s.stages[i] == Ready && t == s.(stages := s.stages[i := Refused]))
        || (s.stages[i] == Paid && (t == s.(stages := s.stages[i := Known]) || t == s.(stages := s.stages[i := Stuck])))
        || (s.stages[i] == Known && (t == s.(stages := s.stages[i := Credited]) || t == s.(stages := s.stages[i := Stuck]))))
  }

  ghost predicate StepOf(orders: seq<Order>, s: Sys, t: Sys, i: nat) {
    TransferStep(orders, s, t, i) || StageStep(s, t, i)
  }

  ghost predicate Next(orders: seq<Order>, s: Sys, t: Sys) {
    exists i: nat :: StepOf(orders, s, t, i)
  }

  ghost predicate Legal(orders: seq<Order>, trace: seq<Sys>, k: int) {
    0 <= k < |trace| - 1 ==> Next(orders, trace[k], trace[k + 1])
  }

  ghost predicate Run(orders: seq<Order>, trace: seq<Sys>) {
    |trace| > 0 && Init(orders, trace[0]) && forall k :: Legal(orders, trace, k)
  }

  /** The sum over the orders that have been paid. */
  function Sum(f: Order -> int, orders: seq<Order>, stages: seq<Stage>): int
    requires |orders| == |stages|
  {
    if orders == [] then 0
    else (if HasPaid(stages[0]) then f(orders[0]) else 0) + Sum(f, orders[1..], stages[1..])
  }

  function Deposit(o: Order): int { o.bal + o.fee }

  function Fee(o: Order): int { o.fee }

  function SpentBy(payer: nat): Order -> int {
    (o: Order) => if o.payer == payer then o.bal + 2 * o.fee else 0
  }

  function Total(ledger: seq<nat>): nat {
    if ledger == [] then 0 else ledger[0] + Total(ledger[1..])
  }

  lemma {:induction false} SumUpdate(f: Order -> int, orders: seq<Order>, stages: seq<Stage>, i: nat, s: Stage)
    requires |orders| == |stages| && i < |stages|
    ensures Sum(f, orders, stages[i := s])
         == Sum(f, orders, stages) + (if HasPaid(s) then f(orders[i]) else 0) - (if HasPaid(stages[i]) then f(orders[i]) else 0)
  {
    if i == 0 {
      assert stages[i := s][1..] == stages[1..];
    } else {
      assert stages[i := s][1..] == stages[1..][i - 1 := s];
      SumUpdate(f, orders[1..], stages[1..], i - 1, s);
    }
  }

  lemma {:induction false} TotalUpdate(ledger: seq<nat>, i: nat, v: nat)
    requires i < |ledger|
    ensures Total(ledger[i := v]) == Total(ledger) + v - ledger[i]
  {
    if i == 0 {
      assert ledger[i := v][1..] == ledger[1..];
    } else {
      assert ledger[i := v][1..] == ledger[1..][i - 1 := v];
      TotalUpdate(ledger[1..], i - 1, v);
    }
  }

  lemma {:induction false} NothingPaidYet(f: Order -> int, orders: seq<Order>, stages: seq<Stage>)
    requires |orders| == |stages| && forall i :: 0 <= i < |stages| ==> stages[i] == Ready
    ensures Sum(f, orders, stages) == 0
  {
    if orders != [] {
      NothingPaidYet(f, orders[1..], stages[1..]);
    }
  }

  /** Where the money is, relative to the start. */
  ghost predicate Books(orders: seq<Order>, start: Sys, s: Sys) {
    && |s.stages| == |orders| && |s.ledger| == |start.ledger|
    && (forall p: nat :: p < |s.ledger| ==> s.ledger[p] == start.ledger[p] - Sum(SpentBy(p), orders, s.stages))
    && s.perun == start.perun + Sum(Deposit, orders, s.stages)
    && s.burned == start.burned + Sum(Fee, orders, s.stages)
    && Total(s.ledger) + s.perun + s.burned == Total(start.ledger) + start.perun + start.burned
  }

  lemma TransferKeepsBooks(orders: seq<Order>, start: Sys, s: Sys, t: Sys, i: nat)
    requires Books(orders, start, s) && TransferStep(orders, s, t, i)
    ensures Books(orders, start, t)
  {
    TransferIsExact(orders[i].bal, orders[i].fee);
    SumUpdate(Deposit, orders, s.stages, i, Paid);
    SumUpdate(Fee, orders, s.stages, i, Paid);
    TotalUpdate(s.ledger, orders[i].payer, t.ledger[orders[i].payer]);
    forall p: nat | p < |t.ledger| ensures t.ledger[p] == start.ledger[p] - Sum(SpentBy(p), orders, t.stages) {
      SumUpdate(SpentBy(p), orders, s.stages, i, Paid);
    }
  }

  lemma StageKeepsBooks(orders: seq<Order>, start: Sys, s: Sys, t: Sys, i: nat)
    requires Books(orders, start, s) && StageStep(s, t, i)
    ensures Books(orders, start, t)
  {
    SumUpdate(Deposit, orders, s.stages, i, t.stages[i]);
    SumUpdate(Fee, orders, s.stages, i, t.stages[i]);
    forall p: nat | p < |t.ledger| ensures t.ledger[p] == start.ledger[p] - Sum(SpentBy(p), orders, t.stages) {
      SumUpdate(SpentBy(p), orders, s.stages, i, t.stages[i]);
    }
  }

  /** Conservation. At every point of every interleaving each account is down by exactly balance plus two
      fees of every channel it has paid for, the Perun account is up by balance plus fee of each of them,
      and no token appears or disappears apart from the burned fees. */
  lemma {:induction false} FundingConserves(orders: seq<Order>, trace: seq<Sys>, k: nat)
    requires Run(orders, trace) && k < |trace|
    ensures Books(orders, trace[0], trace[k])
  {
    if k == 0 {
      NothingPaidYet(Deposit, orders, trace[0].stages);
      NothingPaidYet(Fee, orders, trace[0].stages);
      forall p: nat | p < |trace[0].ledger| ensures Sum(SpentBy(p), orders, trace[0].stages) == 0 {
        NothingPaidYet(SpentBy(p), orders, trace[0].stages);
      }
    } else {
      FundingConserves(orders, trace, k - 1);
      var s, t := trace[k - 1], trace[k];
      assert Legal(orders, trace, k - 1);
      var i: nat :| StepOf(orders, s, t, i);
      if TransferStep(orders, s, t, i) {
        TransferKeepsBooks(orders, trace[0], s, t, i);
      } else {
        StageKeepsBooks(orders, trace[0], s, t, i);
      }
    }
  }

  // ---- Fund on this ledger ----

  /** How far a funding has come. */
  function Reached(w: World, calls: seq<Call>): Stage {
    if calls == [] || w.block == None then Refused else if w.notified && w.deposited then Credited else Stuck
  }

  ghost predicate ActsAt(orders: seq<Order>, trace: seq<Sys>, k: int, i: nat) {
    0 <= k < |trace| - 1 ==> StepOf(orders, trace[k], trace[k + 1], i)
  }

  /** The ledger covers every transfer it accepts. */
  predicate Covered(o: Order, s: Sys, w: World) {
    && o.payer < |s.ledger|
    && (w.block.Some? && BuildTransfer(o.bal, o.fee).Some? ==> o.bal + 2 * o.fee <= s.ledger[o.payer])
  }

  /** The calls of Fund are steps of its order. The funder has been debited, and the Perun account
      credited, exactly if the transfer was made and accepted; if Fund returns nil the channel is credited. */
  method FundOrder(
      orders: seq<Order>, i: nat, ghost s: Sys, req: FundingReq, addr: seq<byte>, w: World, maxIters: nat)
      returns (r: Outcome, calls: seq<Call>, ghost trace: seq<Sys>)
    requires |req.agreement| > 0 && req.idx < |req.agreement[0]| && req.idx < |req.parts|
    requires i < |orders| == |s.stages| && s.stages[i] == Ready && Covered(orders[i], s, w)
    requires orders[i].bal == req.agreement[0][req.idx] && orders[i].fee == TRANSFER_FEE
    ensures |trace| > 0 && trace[0] == s && forall k :: ActsAt(orders, trace, k, i)
    ensures var t, o := trace[|trace| - 1], orders[i];
            && t.stages == s.stages[i := Reached(w, calls)]
            && |t.ledger| == |s.ledger|
            && (forall p :: 0 <= p < |s.ledger| ==>
                  t.ledger[p] == s.ledger[p] - if HasPaid(Reached(w, calls)) && p == o.payer then o.bal + 2 * o.fee else 0)
            && t.perun == s.perun + if HasPaid(Reached(w, calls)) then o.bal + o.fee else 0
    ensures r == Nil ==> Reached(w, calls) == Credited
    ensures var stage := trace[|trace| - 1].stages[i];
            && (stage == Refused <==> calls == [] || w.block == None)
            && (stage == Credited <==> |calls| == 3 && w.deposited)
            && (stage == Refused || stage == Credited || stage == Stuck)
  {
    r, calls := Fund(req, addr, w, maxIters);
    ghost var o := orders[i];
    TransferIsExact(o.bal, o.fee);
    if calls == [] || w.block == None {
      trace := [s, s.(stages := s.stages[i := Refused])];
    } else {
      ghost var paid := AfterTransfer(o, BuildTransfer(o.bal, o.fee).value, s, i);
      ghost var last := Reached(w, calls);
      if !w.notified {
        trace := [s, paid, paid.(stages := s.stages[i := last])];
      } else {
        ghost var known := paid.(stages := s.stages[i := Known]);
        trace := [s, paid, known, known.(stages := s.stages[i := last])];
      }
    }
  }
}
