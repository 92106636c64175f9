/** channel/adjudicator.go: which canister calls, with which replies, lead to success. The canister
    may answer anything. */
module Adjudicator {
  import opened Bytes
  import opened Encoding
  import opened Backend
  import opened EventLog
  import opened AdjudicatorEvents
  import opened Subscription

  const CONCLUDE_ERROR := "error concluding the channel"
  const WITHDRAWAL_SUCCESS := "successful withdrawal"
  const DISPUTE_SUCCESS := "successful initialization of a dispute"

  /** go-perun's AdjudicatorReq: parameters with their channel ID, and a state with its signatures. */
  datatype Request = Request(params: PerunParams, cid: Bytes32, tx: PerunState, sigs: seq<seq<byte>>)

  datatype AdjRequest = AdjRequest(
    nonce: seq<byte>, participants: seq<seq<byte>>, channel: Bytes32, version: uint64, challengeDuration: uint64,
    allocation: seq<int>, finalized: bool, sigs: seq<seq<byte>>)

  datatype WithdrawalRequest = WithdrawalRequest(channel: Bytes32, participant: seq<byte>, receiver: seq<byte>, sig: seq<byte>)

  datatype RegisteredState = RegisteredState(version: uint64, timeout: uint64)

  /** One interaction, in the order in which they happen. A reply None is an error of the call. */
  datatype Call =
    | Concluded(args: AdjRequest, reply: Option<string>)
    | Disputed(args: AdjRequest, reply: Option<string>)
    | QueriedState(cid: Bytes32, state: Option<Option<RegisteredState>>)
    | QueriedEvents(cid: Bytes32, reply: Option<string>)
    | TimedOut(timeout: uint64)
    | Saw(ev: Ev)
    | Withdrew(req: WithdrawalRequest, reply: Option<string>)

  /** How a method ends: nil, an error, or a panic. */
  datatype Outcome = Nil | Failure(reason: Reason) | Panicking

  datatype Reason =
    | BadNonce | ConcludeFailed | QueryFailed | BadEventLog | NotRegistered | NewerDispute | Interrupted
    | DifferentVersion | SigningFailed | WithdrawalFailed | DisputeFailed | Incompatible

  // ---- Requests ----

  /** Fails only for a nonce out of range. */
  function AdjReqOf(req: Request): Option<AdjRequest>
    requires |req.tx.balances| > 0
  {
    match MakeNonce(req.params.nonce)
    case None => None
    case Some(nonce) => Some(AdjRequest(
      nonce, req.params.parts, req.cid, req.tx.version, req.params.challengeDuration, req.tx.balances[0], req.tx.isFinal, req.sigs))
  }

  method MakeParts(addrs: seq<seq<byte>>) returns (parts: seq<seq<byte>>)
    ensures parts == addrs
  {
    parts := [];
    for i := 0 to |addrs|
      invariant parts == addrs[..i]
    {
      parts := parts + [addrs[i]];
    }
  }

  method MakeAdjReq(req: Request) returns (r: Option<AdjRequest>)
    requires |req.tx.balances| > 0
    ensures r == AdjReqOf(req)
    ensures r.Some? <==> 0 < req.params.nonce < NONCE_LIMIT
  {
    var parts := MakeParts(req.params.parts);
    var nonce := MakeNonce(req.params.nonce);
    if nonce == None { return None; }
    r := Some(AdjRequest(nonce.value, parts, req.cid, req.tx.version, req.params.challengeDuration, req.tx.balances[0], req.tx.isFinal, req.sigs));
  }

  /** Two requests look the same to the canister exactly if they agree in participants, challenge duration,
      channel, version, balances of the first asset, final flag and signatures, and one nonce is the other
      times a power of 256. The application, its data and the other assets do not take part. */
  lemma SameAdjRequest(p: Request, q: Request)
    requires |p.tx.balances| > 0 && |q.tx.balances| > 0 && AdjReqOf(p).Some? && AdjReqOf(q).Some?
    ensures AdjReqOf(p) == AdjReqOf(q) <==>
      && p.params.parts == q.params.parts && p.params.challengeDuration == q.params.challengeDuration
      && p.cid == q.cid && p.tx.version == q.tx.version && p.tx.balances[0] == q.tx.balances[0]
      && p.tx.isFinal == q.tx.isFinal && p.sigs == q.sigs
      && (PowerMultiple(p.params.nonce, q.params.nonce) || PowerMultiple(q.params.nonce, p.params.nonce))
  {
    NonceCollision(p.params.nonce, q.params.nonce);
  }

  /** The canister is sent what was signed and hashed: field by field, so that the signed message and the
      preimage of the channel ID can be built again from the request. */
  lemma RequestCarriesWhatWasSigned(req: Request, args: AdjRequest)
    requires |req.tx.balances| > 0 && AdjReqOf(req) == Some(args)
    ensures args.version == req.tx.version && args.finalized == req.tx.isFinal && args.channel == req.cid
    ensures args.participants == req.params.parts && args.challengeDuration == req.params.challengeDuration
    ensures args.allocation == req.tx.balances[0] && args.sigs == req.sigs
    ensures ChainState(req.tx).Ok? && req.cid == req.tx.id ==>
      && args.allocation == ChainState(req.tx).value.balances
      && Message(State(args.channel, args.version, ChainState(req.tx).value.balances, args.finalized, []))
      == Message(ChainState(req.tx).value)
    ensures Convertible(req.params) && |req.params.parts| >= 2 ==>
      args.nonce + args.participants[0] + args.participants[1] + LeBytes(8, args.challengeDuration) == Preimage(req.params)
  {
    ChainStateMeaning(req.tx);
  }

  /** The signature check that belongs to an address. */
  type Verifiers = seq<byte> -> Verifier

  predicate SignedBy(keys: Verifiers, tx: PerunState, addr: seq<byte>, sig: seq<byte>)
    requires |tx.balances| > 0
  {
    match ChainState(tx) case Err(_) => false case Ok(c) => keys(addr)(Message(c), sig)
  }

  predicate FullySigned(keys: Verifiers, req: Request)
    requires |req.tx.balances| > 0
  {
    |req.sigs| == |req.params.parts| && forall i :: 0 <= i < |req.sigs| ==> SignedBy(keys, req.tx, req.params.parts[i], req.sigs[i])
  }

  method FullySignedTx(keys: Verifiers, req: Request) returns (ok: bool)
    requires |req.tx.balances| > 0
    ensures ok == FullySigned(keys, req)
  {
    var parts := req.params.parts;
    if |req.sigs| != |parts| { return false; }
    for i := 0 to |parts|
      invariant forall j :: 0 <= j < i ==> SignedBy(keys, req.tx, parts[j], req.sigs[j])
    {
      var a := Verify(keys(parts[i]), req.tx, req.sigs[i]);
      if a != Some(true) { return false; }
    }
    return true;
  }

  /** A fully signed request has exactly one signature for each participant, each valid for the state's
      message; a missing, spare or wrong one, or a state that does not convert, is enough to fail. */
  lemma EveryParticipantSigned(keys: Verifiers, req: Request)
    requires |req.tx.balances| > 0
    ensures FullySigned(keys, req) <==>
      && |req.sigs| == |req.params.parts|
      && (req.params.parts != [] ==> ChainState(req.tx).Ok?)
      && forall i :: 0 <= i < |req.params.parts| ==>
           i < |req.sigs| && ChainState(req.tx).Ok? && keys(req.params.parts[i])(Message(ChainState(req.tx).value), req.sigs[i])
    ensures |req.sigs| != |req.params.parts| ==> !ConcludesFinal(keys, req)
  {
    if FullySigned(keys, req) && req.params.parts != [] {
      assert SignedBy(keys, req.tx, req.params.parts[0], req.sigs[0]);
    }
  }

  /** With ideal signatures, a request whose i-th signature was made for the state `signed[i]` counts as
      fully signed exactly if each of these states agrees with the one requested in channel, version,
      final flag and balance digits. */
  lemma FullySignedMeaning(keys: Verifiers, signers: seq<Signer>, signed: seq<State>, req: Request)
    requires |req.tx.balances| > 0 && ChainState(req.tx).Ok?
    requires |signers| == |signed| == |req.sigs| == |req.params.parts|
    requires forall i :: 0 <= i < |signers| ==> Ideal(signers[i], keys(req.params.parts[i]))
    requires forall i :: 0 <= i < |signers| ==> signers[i](Message(signed[i])) == Some(req.sigs[i])
    ensures FullySigned(keys, req) <==>
      forall i :: 0 <= i < |signed| ==> SameSigned(signed[i], ChainState(req.tx).value)
  {
    var c := ChainState(req.tx).value;
    forall i | 0 <= i < |signed|
      ensures SignedBy(keys, req.tx, req.params.parts[i], req.sigs[i]) <==> SameSigned(signed[i], c)
    {
      VerifyAcceptsSigned(signers[i], keys(req.params.parts[i]), signed[i], c);
    }
  }

  // ---- Waiting for an event ----

  /** One round of the select in a wait: an event (None from a closed channel), the cancelled context,
      an error of the poller, or nothing yet. The context is cancelled when the rounds run out. */
  datatype Select = Received(ev: Option<Ev>) | ContextDone | PollerError | Nothing

  /** The event that ends the wait with success. */
  function Awaited(selects: seq<Select>, kind: Kind, version: uint64): (r: Option<Ev>)
    ensures r.Some? ==> Acceptable(kind, version, r.value) && Received(r) in selects
  {
    if selects == [] then None
    else
      match selects[0]
      case ContextDone => None
      case PollerError => None
      case Nothing => Awaited(selects[1..], kind, version)
      case Received(ev) =>
        if ev.Some? && Acceptable(kind, version, ev.value) then ev else Awaited(selects[1..], kind, version)
  }

  /** waitForConcluded and waitForDisputed. */
  method WaitFor(selects: seq<Select>, kind: Kind, version: uint64) returns (r: Option<Ev>)
    ensures r == Awaited(selects, kind, version)
  {
    var i := 0;
    while i < |selects|
      invariant 0 <= i <= |selects|
      invariant Awaited(selects, kind, version) == Awaited(selects[i..], kind, version)
    {
      var s := selects[i];
      assert selects[i..][0] == s && selects[i..][1..] == selects[i + 1..];
      i := i + 1;
      match s
      case Received(ev) => if ev.Some? && Acceptable(kind, version, ev.value) { return ev; }
      case ContextDone => return None;
      case PollerError => return None;
      case Nothing =>
    }
    return None;
  }

  // ---- The environment ----

  /** What the canister and the clock answer to the n-th interaction. */
  datatype Response = Response(text: Option<string>, state: Option<Option<RegisteredState>>, elapsed: bool)

  type Script = nat -> Response

  class Canister {
    const script: Script
    var trace: seq<Call>

    constructor (script: Script)
      ensures this.script == script && trace == []
    {
      this.script, trace := script, [];
    }

    method Conclude(args: AdjRequest) returns (reply: Option<string>)
      modifies this
      ensures reply == script(|old(trace)|).text && trace == old(trace) + [Concluded(args, reply)]
    {
      reply := script(|trace|).text;
      trace := trace + [Concluded(args, reply)];
    }

    method Dispute(args: AdjRequest) returns (reply: Option<string>)
      modifies this
      ensures reply == script(|old(trace)|).text && trace == old(trace) + [Disputed(args, reply)]
    {
      reply := script(|trace|).text;
      trace := trace + [Disputed(args, reply)];
    }

    method QueryState(cid: Bytes32) returns (state: Option<Option<RegisteredState>>)
      modifies this
      ensures state == script(|old(trace)|).state && trace == old(trace) + [QueriedState(cid, state)]
    {
      state := script(|trace|).state;
      trace := trace + [QueriedState(cid, state)];
    }

    method QueryEvents(cid: Bytes32) returns (reply: Option<string>)
      modifies this
      ensures reply == script(|old(trace)|).text && trace == old(trace) + [QueriedEvents(cid, reply)]
    {
      reply := script(|trace|).text;
      trace := trace + [QueriedEvents(cid, reply)];
    }

    /** False if the context was cancelled first. */
    method Sleep(timeout: uint64) returns (elapsed: bool)
      modifies this
      ensures elapsed == script(|old(trace)|).elapsed
      ensures trace == if elapsed then old(trace) + [TimedOut(timeout)] else old(trace)
    {
      elapsed := script(|trace|).elapsed;
      if elapsed { trace := trace + [TimedOut(timeout)]; }
    }

    method Await(selects: seq<Select>, kind: Kind, version: uint64) returns (ok: bool)
      modifies this
      ensures ok <==> Awaited(selects, kind, version).Some?
      ensures trace == if ok then old(trace) + [Saw(Awaited(selects, kind, version).value)] else old(trace)
    {
      var ev := WaitFor(selects, kind, version);
      ok := ev.Some?;
      if ok { trace := trace + [Saw(ev.value)]; }
    }

    method Withdraw(req: WithdrawalRequest) returns (reply: Option<string>)
      modifies this
      ensures reply == script(|old(trace)|).text && trace == old(trace) + [Withdrew(req, reply)]
    {
      reply := script(|trace|).text;
      trace := trace + [Withdrew(req, reply)];
    }
  }

  // ---- What counts as concluded ----

  /** The single conclusion in the log has exactly the requested version and channel. */
  predicate LogMatches(text: string, cid: Bytes32, version: uint64) {
    match EventsOf(Conclude, text)
    case Events(list) => exists i :: 0 <= i < |list| && list[i].version == version && list[i].id == cid
    case _ => false
  }

  /** A final, fully signed state: the canister accepted it and a conclusion was observed. */
  predicate ConcludedNow(req: Request, calls: seq<Call>)
    requires |req.tx.balances| > 0
  {
    && |calls| == 2 && AdjReqOf(req).Some?
    && calls[0].Concluded? && calls[0].args == AdjReqOf(req).value
    && calls[0].reply.Some? && calls[0].reply.value != CONCLUDE_ERROR
    && calls[1].Saw? && calls[1].ev.kind == EventLog.Conclude
  }

  /** A final, fully signed state that somebody else had concluded before. */
  predicate ConcludedBefore(req: Request, calls: seq<Call>)
    requires |req.tx.balances| > 0
  {
    && |calls| == 2 && AdjReqOf(req).Some?
    && calls[0].Concluded? && calls[0].args == AdjReqOf(req).value
    && calls[0].reply.Some? && calls[0].reply.value == CONCLUDE_ERROR
    && calls[1].QueriedEvents? && calls[1].cid == req.cid
    && calls[1].reply.Some? && LogMatches(calls[1].reply.value, req.cid, req.tx.version)
  }

  /** A registered version not above the requested one, whose timeout is over. */
  predicate TimeoutPassed(req: Request, calls: seq<Call>) {
    && |calls| == 2
    && calls[0].QueriedState? && calls[0].cid == req.cid && calls[0].state.Some? && calls[0].state.value.Some?
    && calls[0].state.value.value.version <= req.tx.version
    && calls[1] == TimedOut(calls[0].state.value.value.timeout)
  }

  /** An answered conclude call, a conclusion observed, and then exactly the requested version
      registered. */
  predicate RegisteredConcluded(req: Request, calls: seq<Call>)
    requires |req.tx.balances| > 0
  {
    && |calls| == 3 && AdjReqOf(req).Some?
    && calls[0].Concluded? && calls[0].args == AdjReqOf(req).value && calls[0].reply.Some?
    && calls[1].Saw? && calls[1].ev.kind == EventLog.Conclude
    && calls[2].QueriedState? && calls[2].cid == req.cid && calls[2].state.Some? && calls[2].state.value.Some?
    && calls[2].state.value.value.version == req.tx.version
  }

  /** Any state that is not final or not fully signed is concluded only after its timeout. */
  predicate ConcludedAfterTimeout(req: Request, calls: seq<Call>)
    requires |req.tx.balances| > 0
  {
    |calls| == 5 && TimeoutPassed(req, calls[..2]) && RegisteredConcluded(req, calls[2..])
  }

  predicate EnsuresConcluded(keys: Verifiers, req: Request, calls: seq<Call>)
    requires |req.tx.balances| > 0
  {
    if req.tx.isFinal && FullySigned(keys, req) then ConcludedNow(req, calls) || ConcludedBefore(req, calls)
    else ConcludedAfterTimeout(req, calls)
  }

  // ---- Which replies lead to a conclusion ----

  /** The wait for a conclusion succeeds. */
  predicate SeesConclusion(selects: seq<Select>) {
    Awaited(selects, EventLog.Conclude, 0).Some?
  }

  /** From the n-th reply on: a registered version not above the requested one, and time. */
  predicate TimeoutGranted(script: Script, n: nat, req: Request) {
    match script(n).state
    case Some(Some(registered)) => registered.version <= req.tx.version && script(n + 1).elapsed
    case _ => false
  }

  predicate RegisteredGranted(script: Script, n: nat, req: Request, selects: seq<Select>) {
    && script(n).text.Some? && SeesConclusion(selects)
    && match script(n + 2).state
       case Some(Some(registered)) => registered.version == req.tx.version
       case _ => false
  }

  predicate FinalGranted(script: Script, n: nat, req: Request, selects: seq<Select>) {
    match script(n).text
    case None => false
    case Some(text) =>
      if text == CONCLUDE_ERROR then script(n + 1).text.Some? && LogMatches(script(n + 1).text.value, req.cid, req.tx.version)
      else SeesConclusion(selects)
  }

  predicate ConcludesFinal(keys: Verifiers, req: Request)
    requires |req.tx.balances| > 0
  {
    req.tx.isFinal && FullySigned(keys, req)
  }

  predicate ConclusionGranted(script: Script, n: nat, keys: Verifiers, req: Request, selects: seq<Select>)
    requires |req.tx.balances| > 0
  {
    && 0 < req.params.nonce < NONCE_LIMIT
    && if ConcludesFinal(keys, req) then FinalGranted(script, n, req, selects)
       else TimeoutGranted(script, n, req) && RegisteredGranted(script, n + 2, req, selects)
  }

  // ---- Which interactions there are ----

  function TimeoutCalls(script: Script, n: nat, req: Request): seq<Call> {
    [QueriedState(req.cid, script(n).state)]
    + if TimeoutGranted(script, n, req) then [TimedOut(script(n).state.value.value.timeout)] else []
  }

  function RegisteredCalls(script: Script, n: nat, args: AdjRequest, cid: Bytes32, selects: seq<Select>): seq<Call> {
    [Concluded(args, script(n).text)]
    + if script(n).text.Some? && SeesConclusion(selects)
      then [Saw(Awaited(selects, EventLog.Conclude, 0).value), QueriedState(cid, script(n + 2).state)] else []
  }

  function FinalCalls(script: Script, n: nat, args: AdjRequest, cid: Bytes32, selects: seq<Select>): seq<Call> {
    [Concluded(args, script(n).text)]
    + if script(n).text == None then []
      else if script(n).text == Some(CONCLUDE_ERROR) then [QueriedEvents(cid, script(n + 1).text)]
      else if SeesConclusion(selects) then [Saw(Awaited(selects, EventLog.Conclude, 0).value)] else []
  }

  function DisputeCalls(script: Script, n: nat, req: Request, args: AdjRequest, selects: seq<Select>): seq<Call> {
    TimeoutCalls(script, n, req)
    + if TimeoutGranted(script, n, req) then RegisteredCalls(script, n + 2, args, req.cid, selects) else []
  }

  /** Everything that is done to ensure that the channel is concluded. */
  function EnsuringCalls(script: Script, n: nat, keys: Verifiers, req: Request, selects: seq<Select>): seq<Call>
    requires |req.tx.balances| > 0
  {
    match AdjReqOf(req)
    case None => []
    case Some(args) =>
      if ConcludesFinal(keys, req) then FinalCalls(script, n, args, req.cid, selects)
      else DisputeCalls(script, n, req, args, selects)
  }

  /** The replies lead to a conclusion exactly if the interactions show one. */
  lemma GrantedIsConcluded(script: Script, n: nat, keys: Verifiers, req: Request, selects: seq<Select>)
    requires |req.tx.balances| > 0
    ensures var calls := EnsuringCalls(script, n, keys, req, selects);
            && (ConclusionGranted(script, n, keys, req, selects) <==> EnsuresConcluded(keys, req, calls))
            && (ConclusionGranted(script, n, keys, req, selects) ==> |calls| == if ConcludesFinal(keys, req) then 2 else 5)
            && forall k :: k in calls ==> !k.Withdrew? && SawAwaited(k, selects)
  {
    if AdjReqOf(req).Some? {
      var args := AdjReqOf(req).value;
      if ConcludesFinal(keys, req) {
        FinalIsConcluded(script, n, req, args, selects);
      } else {
        DisputeIsConcluded(script, n, req, args, selects);
      }
    }
  }

  /** The conclude call comes first exactly for a final state with one valid signature for each participant.
      Otherwise the first thing is to ask for the registered state. */
  lemma FirstInteraction(script: Script, n: nat, keys: Verifiers, req: Request, selects: seq<Select>)
    requires |req.tx.balances| > 0 && 0 < req.params.nonce < NONCE_LIMIT
    ensures var calls := EnsuringCalls(script, n, keys, req, selects);
            && calls != []
            && (calls[0].Concluded? <==>
                  && req.tx.isFinal && |req.sigs| == |req.params.parts|
                  && forall i :: 0 <= i < |req.sigs| ==>
                       ChainState(req.tx).Ok? && keys(req.params.parts[i])(Message(ChainState(req.tx).value), req.sigs[i]))
            && (!calls[0].Concluded? ==> calls[0] == QueriedState(req.cid, script(n).state))
  {
    EveryParticipantSigned(keys, req);
  }

  lemma FinalIsConcluded(script: Script, n: nat, req: Request, args: AdjRequest, selects: seq<Select>)
    requires |req.tx.balances| > 0 && AdjReqOf(req) == Some(args)
    ensures var calls := FinalCalls(script, n, args, req.cid, selects);
            && (FinalGranted(script, n, req, selects) <==> ConcludedNow(req, calls) || ConcludedBefore(req, calls))
            && (FinalGranted(script, n, req, selects) ==> |calls| == 2)
            && forall k :: k in calls ==> !k.Withdrew? && SawAwaited(k, selects)
  {
  }

  lemma RegisteredIsConcluded(script: Script, n: nat, req: Request, args: AdjRequest, selects: seq<Select>)
    requires |req.tx.balances| > 0 && AdjReqOf(req) == Some(args)
    ensures var calls := RegisteredCalls(script, n, args, req.cid, selects);
            && (RegisteredGranted(script, n, req, selects) <==> RegisteredConcluded(req, calls))
            && |calls| <= 3
            && forall k :: k in calls ==> !k.Withdrew? && SawAwaited(k, selects)
  {
  }

  lemma TimeoutIsPassed(script: Script, n: nat, req: Request)
    ensures var calls := TimeoutCalls(script, n, req);
            && (TimeoutGranted(script, n, req) <==> TimeoutPassed(req, calls))
            && |calls| <= 2 && forall k :: k in calls ==> !k.Withdrew? && !k.Saw?
  {
  }

  lemma DisputeIsConcluded(script: Script, n: nat, req: Request, args: AdjRequest, selects: seq<Select>)
    requires |req.tx.balances| > 0 && AdjReqOf(req) == Some(args)
    ensures var calls := DisputeCalls(script, n, req, args, selects);
            && (TimeoutGranted(script, n, req) && RegisteredGranted(script, n + 2, req, selects) <==> ConcludedAfterTimeout(req, calls))
            && |calls| <= 5
            && forall k :: k in calls ==> !k.Withdrew? && SawAwaited(k, selects)
  {
    var waited, concluded := TimeoutCalls(script, n, req), RegisteredCalls(script, n + 2, args, req.cid, selects);
    TimeoutIsPassed(script, n, req);
    RegisteredIsConcluded(script, n + 2, req, args, selects);
    assert TimeoutGranted(script, n, req) ==> (waited + concluded)[..2] == waited && (waited + concluded)[2..] == concluded;
  }

  /** The only event that is ever observed is the one that ended the wait for a conclusion. */
  predicate SawAwaited(k: Call, selects: seq<Select>) {
    k.Saw? ==> Awaited(selects, EventLog.Conclude, 0) == Some(k.ev)
  }

  // ---- The methods ----

  method QueryAndMatchEvents(c: Canister, cid: Bytes32, version: uint64) returns (r: Outcome, matched: bool, ghost q: Call)
    modifies c
    ensures c.trace == old(c.trace) + [q]
    ensures q == QueriedEvents(cid, c.script(|old(c.trace)|).text)
    ensures r == Nil && matched <==> q.reply.Some? && LogMatches(q.reply.value, cid, version)
  {
    var text := c.QueryEvents(cid);
    q := QueriedEvents(cid, text);
    if text == None { return Failure(QueryFailed), false, q; }
    var evs := ParseEvents(EventLog.Conclude, text.value);
    if evs.Crash? { return Panicking, false, q; }
    if evs.BadLog? { return Failure(BadEventLog), false, q; }
    if evs.list == [] { return Failure(ConcludeFailed), false, q; }
    for i := 0 to |evs.list|
      invariant forall j :: 0 <= j < i ==> !(evs.list[j].version == version && evs.list[j].id == cid)
    {
      if evs.list[i].version == version && evs.list[i].id == cid { return Nil, true, q; }
    }
    return Nil, false, q;
  }

  /** isConcluded: an answer false never comes without an error. */
  method IsConcluded(c: Canister, req: Request, selects: seq<Select>) returns (r: Outcome)
    requires |req.tx.balances| > 0
    modifies c
    ensures match AdjReqOf(req)
            case None => r == Failure(BadNonce) && c.trace == old(c.trace)
            case Some(args) =>
              && c.trace == old(c.trace) + FinalCalls(c.script, |old(c.trace)|, args, req.cid, selects)
              && (r == Nil <==> FinalGranted(c.script, |old(c.trace)|, req, selects))
              && (r == Nil && !SeesConclusion(selects) ==> c.script(|old(c.trace)|).text == Some("error concluding the channel"))
              && (c.script(|old(c.trace)|).text == Some("error concluding the channel") ==>
                    c.trace == old(c.trace) + [c.trace[|old(c.trace)|], QueriedEvents(req.cid, c.script(|old(c.trace)| + 1).text)])
  {
    var args := MakeAdjReq(req);
    if args == None { return Failure(BadNonce); }
    var reply := c.Conclude(args.value);
    if reply == None { return Failure(ConcludeFailed); }
    if reply.value == CONCLUDE_ERROR {
      var err, matched, _ := QueryAndMatchEvents(c, req.cid, req.tx.version);
      if err != Nil || matched { return err; }
      return Failure(ConcludeFailed);
    }
    var ok := c.Await(selects, EventLog.Conclude, 0);
    r := if ok then Nil else Failure(Interrupted);
  }

  /** The first half of checkDisputes. */
  method AwaitTimeout(c: Canister, req: Request) returns (r: Outcome)
    modifies c
    ensures c.trace == old(c.trace) + TimeoutCalls(c.script, |old(c.trace)|, req)
    ensures r == Nil <==> TimeoutGranted(c.script, |old(c.trace)|, req)
    ensures match c.script(|old(c.trace)|).state
            case Some(Some(found)) => r == Nil <==> found.version <= req.tx.version && c.script(|old(c.trace)| + 1).elapsed
            case _ => r != Nil
  {
    var qs := c.QueryState(req.cid);
    if qs == None { return Failure(QueryFailed); }
    if qs.value == None { return Failure(NotRegistered); }
    if qs.value.value.version > req.tx.version { return Failure(NewerDispute); }
    var elapsed := c.Sleep(qs.value.value.timeout);
    r := if elapsed then Nil else Failure(Interrupted);
  }

  /** The second half. What the canister says to the conclude call is not looked at. That nothing is
      registered any more is not foreseen. */
  method ConcludeRegistered(c: Canister, req: Request, nonce: seq<byte>, selects: seq<Select>) returns (r: Outcome)
    requires |req.tx.balances| > 0 && MakeNonce(req.params.nonce) == Some(nonce)
    modifies c
    ensures AdjReqOf(req).Some?
    ensures c.trace == old(c.trace) + RegisteredCalls(c.script, |old(c.trace)|, AdjReqOf(req).value, req.cid, selects)
    ensures r == Nil <==> RegisteredGranted(c.script, |old(c.trace)|, req, selects)
    ensures match c.script(|old(c.trace)| + 2).state
            case Some(Some(found)) =>
              r == Nil <==> c.script(|old(c.trace)|).text.Some? && SeesConclusion(selects) && found.version == req.tx.version
            case _ => r != Nil
    ensures r == Panicking <==>
      var n := |old(c.trace)|; c.script(n).text.Some? && SeesConclusion(selects) && c.script(n + 2).state == Some(None)
  {
    var parts := MakeParts(req.params.parts);
    var args := AdjRequest(
      nonce, parts, req.cid, req.tx.version, req.params.challengeDuration, req.tx.balances[0], req.tx.isFinal, req.sigs);
    var reply := c.Conclude(args);
    if reply == None { return Failure(ConcludeFailed); }
    var ok := c.Await(selects, EventLog.Conclude, 0);
    if !ok { return Failure(Interrupted); }
    var last := c.QueryState(req.cid);
    if last == None { return Failure(QueryFailed); }
    if last.value == None { return Panicking; }
    r := if last.value.value.version == req.tx.version then Nil else Failure(DifferentVersion);
  }

  method CheckDisputes(c: Canister, req: Request, nonce: seq<byte>, selects: seq<Select>) returns (r: Outcome)
    requires |req.tx.balances| > 0 && MakeNonce(req.params.nonce) == Some(nonce)
    modifies c
    ensures AdjReqOf(req).Some?
    ensures c.trace == old(c.trace) + DisputeCalls(c.script, |old(c.trace)|, req, AdjReqOf(req).value, selects)
    ensures var n := |old(c.trace)|;
            r == Nil <==> TimeoutGranted(c.script, n, req) && RegisteredGranted(c.script, n + 2, req, selects)
  {
    r := AwaitTimeout(c, req);
    if r != Nil { return; }
    r := ConcludeRegistered(c, req, nonce, selects);
  }

  /** ensureConcluded. The replies alone decide: what is done, and whether it ends in a conclusion. */
  method EnsureConcluded(c: Canister, keys: Verifiers, req: Request, selects: seq<Select>) returns (r: Outcome)
    requires |req.tx.balances| > 0
    modifies c
    ensures c.trace == old(c.trace) + EnsuringCalls(c.script, |old(c.trace)|, keys, req, selects)
    ensures r == Nil <==> ConclusionGranted(c.script, |old(c.trace)|, keys, req, selects)
    ensures r == Nil <==> EnsuresConcluded(keys, req, EnsuringCalls(c.script, |old(c.trace)|, keys, req, selects))
  {
    GrantedIsConcluded(c.script, |c.trace|, keys, req, selects);
    var concludeFinal := req.tx.isFinal;
    if concludeFinal { concludeFinal := FullySignedTx(keys, req); }
    var nonce := MakeNonce(req.params.nonce);
    if nonce == None { return Failure(BadNonce); }
    if concludeFinal {
      r := IsConcluded(c, req, selects);
    } else {
      r := CheckDisputes(c, req, nonce.value, selects);
    }
  }

  /** Who withdraws, where to, and with which key. */
  datatype Party = Party(address: seq<byte>, receiver: seq<byte>, sign: Signer)

  /** The bytes that are signed for a withdrawal. */
  function WithdrawalMessage(cid: Bytes32, address: seq<byte>, receiver: seq<byte>): seq<byte> {
    cid + address + receiver
  }

  method MakeWithdrawalReq(p: Party, req: Request) returns (r: Option<WithdrawalRequest>)
    ensures r.Some? <==> p.sign(WithdrawalMessage(req.cid, p.address, p.receiver)).Some?
    ensures r.Some? ==> r.value == WithdrawalRequest(
      req.cid, p.address, p.receiver, p.sign(WithdrawalMessage(req.cid, p.address, p.receiver)).value)
  {
    var msgEnc := req.cid;
    msgEnc := msgEnc + p.address;
    msgEnc := msgEnc + p.receiver;
    var sig := p.sign(msgEnc);
    if sig == None { return None; }
    r := Some(WithdrawalRequest(req.cid, p.address, p.receiver, sig.value));
  }

  /** Two withdrawals by addresses of the same length, as all addresses are, are signed with the same bytes
      exactly if channel, participant and receiver agree. */
  lemma SameWithdrawal(cid: Bytes32, a: seq<byte>, r: seq<byte>, cid': Bytes32, a': seq<byte>, r': seq<byte>)
    requires |a| == |a'|
    ensures WithdrawalMessage(cid, a, r) == WithdrawalMessage(cid', a', r') <==> cid == cid' && a == a' && r == r'
  {
    var m, m' := WithdrawalMessage(cid, a, r), WithdrawalMessage(cid', a', r');
    assert m[..32] == cid && m[32..32 + |a|] == a && m[32 + |a|..] == r;
    assert m'[..32] == cid' && m'[32..32 + |a|] == a' && m'[32 + |a|..] == r';
  }

  lemma {:induction false} BalanceBytesBound(bals: seq<uint64>)
    requires forall i :: 0 <= i < |bals| ==> bals[i] <= MAX_BALANCE
    ensures |BalanceBytes(bals)| <= 4 * |bals|
  {
    if bals != [] {
      BalanceWidth(bals[0]);
      BalanceBytesBound(bals[1..]);
    }
  }

  /** The bytes of a state are those of a withdrawal, which the same key signs, exactly if the channel is the
      same and version, balance digits and flag happen to read as address and receiver. */
  lemma SameAsWithdrawal(c: State, cid: Bytes32, address: Bytes32, receiver: seq<byte>)
    ensures Message(c) == WithdrawalMessage(cid, address, receiver) <==>
      && c.channel == cid && |BalanceBytes(c.balances)| == 23 + |receiver|
      && LeBytes(8, c.version) + BalanceBytes(c.balances) + BoolToBytes(c.final) == address + receiver
  {
    var rest := LeBytes(8, c.version) + BalanceBytes(c.balances) + BoolToBytes(c.final);
    assert Message(c) == c.channel + rest;
    assert WithdrawalMessage(cid, address, receiver) == cid + (address + receiver);
    assert |rest| == 9 + |BalanceBytes(c.balances)|;
    assert (c.channel + rest)[..32] == c.channel && (c.channel + rest)[32..] == rest;
    assert (cid + (address + receiver))[..32] == cid && (cid + (address + receiver))[32..] == address + receiver;
  }

  /** With at most five participants they never are: the message of the state is shorter. */
  lemma StateIsNoWithdrawal(tx: PerunState, cid: Bytes32, address: Bytes32, receiver: seq<byte>)
    requires Admissible(tx) && ChainState(tx).Ok? && |tx.balances[0]| <= 5
    ensures Message(ChainState(tx).value) != WithdrawalMessage(cid, address, receiver)
  {
    ChainStateMeaning(tx);
    var c := ChainState(tx).value;
    assert forall i :: 0 <= i < |c.balances| ==> InBounds(tx.balances[0][i]) && c.balances[i] == tx.balances[0][i];
    BalanceBytesBound(c.balances);
    SameAsWithdrawal(c, cid, address, receiver);
  }

  const FOUR_ONES: uint64 := 0x0101_0101

  lemma SixTimes(b: uint64)
    requires MinLe(b) == [1, 1, 1, 1]
    ensures BalanceBytes([b, b, b, b, b, b]) == seq(24, _ => 1)
  {
    assert [b, b, b, b, b, b] == [b] + [b, b, b, b, b] && [b, b, b, b, b] == [b] + [b, b, b, b];
    assert [b, b, b, b] == [b] + [b, b, b] && [b, b, b] == [b] + [b, b] && [b, b] == [b] + [b] && [b] == [b] + [];
    assert BalanceBytes([b]) == MinLe(b) + BalanceBytes([]);
    assert BalanceBytes([b, b]) == MinLe(b) + BalanceBytes([b]);
    assert BalanceBytes([b, b, b]) == MinLe(b) + BalanceBytes([b, b]);
    assert BalanceBytes([b, b, b, b]) == MinLe(b) + BalanceBytes([b, b, b]);
    assert BalanceBytes([b, b, b, b, b]) == MinLe(b) + BalanceBytes([b, b, b, b]);
  }

  /** With six they can be: for every channel, version and flag there are six accepted balances, an address
      and a receiver of one byte with the same bytes. */
  lemma SixBalancesReadAsWithdrawal(channel: Bytes32, version: uint64, final: bool, data: seq<byte>)
    ensures MakeBalance(FOUR_ONES) == Ok(FOUR_ONES)
    ensures var b := FOUR_ONES;
            Message(State(channel, version, [b, b, b, b, b, b], final, data)) ==
            WithdrawalMessage(channel, LeBytes(8, version) + seq(24, _ => 1), BoolToBytes(final))
  {
    MinLeUnique([1, 1, 1, 1], FOUR_ONES);
    assert LeValue([1]) == 1 + 256 * LeValue([]);
    assert LeValue([1, 1]) == 1 + 256 * LeValue([1]);
    assert LeValue([1, 1, 1]) == 1 + 256 * LeValue([1, 1]);
    assert LeValue([1, 1, 1, 1]) == 1 + 256 * LeValue([1, 1, 1]);
    SixTimes(FOUR_ONES);
  }

  /** What is signed can be signed. */
  predicate Signs(p: Party, req: Request) {
    p.sign(WithdrawalMessage(req.cid, p.address, p.receiver)).Some?
  }

  /** The replies lead to a successful withdrawal. */
  predicate WithdrawalGranted(script: Script, n: nat, keys: Verifiers, p: Party, req: Request, selects: seq<Select>)
    requires |req.tx.balances| > 0
  {
    && ConclusionGranted(script, n, keys, req, selects) && Signs(p, req)
    && script(n + if ConcludesFinal(keys, req) then 2 else 5).text == Some(WITHDRAWAL_SUCCESS)
  }

  /** The last interaction asks to pay out to this party from this channel, and comes after the conclusion
      has been ensured. */
  predicate PaysOutLast(keys: Verifiers, p: Party, req: Request, calls: seq<Call>)
    requires |req.tx.balances| > 0
  {
    calls != []
    && var last := calls[|calls| - 1];
       && EnsuresConcluded(keys, req, calls[..|calls| - 1])
       && last.Withdrew? && last.req.channel == req.cid && last.req.participant == p.address && last.req.receiver == p.receiver
       && p.sign(WithdrawalMessage(req.cid, p.address, p.receiver)) == Some(last.req.sig)
  }

  /** Withdraw. The canister is asked to pay out, once and at the end, exactly if the replies have led to a
      conclusion and the party signs; nil is returned exactly if it then answers with success. */
  method Withdraw(c: Canister, keys: Verifiers, p: Party, req: Request, selects: seq<Select>) returns (r: Outcome)
    requires |req.tx.balances| > 0
    modifies c
    ensures |c.trace| >= |old(c.trace)| && c.trace[..|old(c.trace)|] == old(c.trace)
    ensures var calls := c.trace[|old(c.trace)|..];
            && (forall i :: 0 <= i < |calls| && calls[i].Withdrew? ==> i == |calls| - 1 && PaysOutLast(keys, p, req, calls))
            && (forall k :: k in calls ==> SawAwaited(k, selects))
            && (r == Nil <==> calls != [] && calls[|calls| - 1].Withdrew? && calls[|calls| - 1].reply == Some(WITHDRAWAL_SUCCESS))
    ensures var calls, n := c.trace[|old(c.trace)|..], |old(c.trace)|;
            if ConclusionGranted(c.script, n, keys, req, selects) && Signs(p, req) then PaysOutLast(keys, p, req, calls)
            else calls == EnsuringCalls(c.script, n, keys, req, selects)
    ensures r == Nil <==> WithdrawalGranted(c.script, |old(c.trace)|, keys, p, req, selects)
    ensures r == Nil ==> c.trace[|c.trace| - 1].Withdrew? && c.trace[|c.trace| - 1].reply == Some("successful withdrawal")
  {
    ghost var before, n := c.trace, |c.trace|;
    ghost var ensured := EnsuringCalls(c.script, n, keys, req, selects);
    GrantedIsConcluded(c.script, n, keys, req, selects);
    var err := EnsureConcluded(c, keys, req, selects);
    assert c.trace[n..] == ensured;
    if err != Nil { return err; }
    var w := MakeWithdrawalReq(p, req);
    if w == None { return Failure(SigningFailed); }
    var reply := c.Withdraw(w.value);
    assert c.trace[n..] == ensured + [Withdrew(w.value, reply)];
    assert c.trace[n..][..|ensured|] == ensured;
    if reply != Some(WITHDRAWAL_SUCCESS) { return Failure(WithdrawalFailed); }
    r := Nil;
  }

  /** A dispute that the canister accepted and whose event was observed. */
  predicate DisputeRegistered(req: Request, calls: seq<Call>)
    requires |req.tx.balances| > 0
  {
    && |calls| == 2 && AdjReqOf(req).Some?
    && calls[0] == Disputed(AdjReqOf(req).value, Some(DISPUTE_SUCCESS))
    && calls[1].Saw? && Acceptable(EventLog.Dispute, req.tx.version, calls[1].ev)
  }

  /** The reply and the events that make a dispute succeed. */
  predicate DisputeGranted(script: Script, n: nat, req: Request, selects: seq<Select>) {
    && 0 < req.params.nonce < NONCE_LIMIT && script(n).text == Some(DISPUTE_SUCCESS)
    && Awaited(selects, EventLog.Dispute, req.tx.version).Some?
  }

  method DisputeState(c: Canister, req: Request, selects: seq<Select>) returns (r: Outcome)
    requires |req.tx.balances| > 0
    modifies c
    ensures |c.trace| >= |old(c.trace)| && c.trace[..|old(c.trace)|] == old(c.trace)
    ensures r == Nil <==> DisputeRegistered(req, c.trace[|old(c.trace)|..])
    ensures r == Nil <==> DisputeGranted(c.script, |old(c.trace)|, req, selects)
    ensures r == Nil ==> c.script(|old(c.trace)|).text == Some("successful initialization of a dispute")
    ensures r == Nil ==>
      var last := c.trace[|c.trace| - 1];
      last.Saw? && last.ev.kind == EventLog.Dispute && last.ev.data.version >= req.tx.version
    ensures match AdjReqOf(req)
            case None => c.trace == old(c.trace)
            case Some(args) =>
              && |c.trace| > |old(c.trace)| && c.trace[|old(c.trace)|] == Disputed(args, c.script(|old(c.trace)|).text)
              && |c.trace| == |old(c.trace)| + if r == Nil then 2 else 1
  {
    var args := MakeAdjReq(req);
    if args == None { return Failure(BadNonce); }
    var reply := c.Dispute(args.value);
    if reply != Some(DISPUTE_SUCCESS) { return Failure(DisputeFailed); }
    var ok := c.Await(selects, EventLog.Dispute, req.tx.version);
    r := if ok then Nil else Failure(Interrupted);
  }

  /** Register: a final state is concluded, any other is disputed; sub-channels are refused. */
  method Register(c: Canister, keys: Verifiers, req: Request, states: nat, selects: seq<Select>) returns (r: Outcome)
    requires |req.tx.balances| > 0
    modifies c
    ensures |c.trace| >= |old(c.trace)| && c.trace[..|old(c.trace)|] == old(c.trace)
    ensures var calls := c.trace[|old(c.trace)|..];
            && (r == Nil <==> if req.tx.isFinal then EnsuresConcluded(keys, req, calls)
                              else states == 0 && DisputeRegistered(req, calls))
            && (!req.tx.isFinal && states > 0 ==> calls == [] && r == Failure(Incompatible))
    ensures var n := |old(c.trace)|;
            r == Nil <==> if req.tx.isFinal then ConclusionGranted(c.script, n, keys, req, selects)
                          else states == 0 && DisputeGranted(c.script, n, req, selects)
  {
    if req.tx.isFinal {
      ghost var n := |c.trace|;
      r := EnsureConcluded(c, keys, req, selects);
      assert c.trace[n..] == EnsuringCalls(c.script, n, keys, req, selects);
    } else {
      if states != 0 { return Failure(Incompatible); }
      r := DisputeState(c, req, selects);
    }
  }

  // ---- Consequences ----

  /** A conclude call for exactly this request was answered, and the next interaction showed that the
      channel is concluded. */
  predicate ConcludeAnswered(req: Request, call: Call, next: Call)
    requires |req.tx.balances| > 0
  {
    && call.Concluded? && AdjReqOf(req) == Some(call.args) && call.reply.Some?
    && (|| (next.Saw? && next.ev.kind == EventLog.Conclude)
        || (next.QueriedEvents? && next.reply.Some? && LogMatches(next.reply.value, req.cid, req.tx.version)))
  }

  /** Whatever the canister answers: before any withdrawal for which success is reported, a conclude
      call for exactly this request was answered, and either a conclusion was observed after it, or
      the log already held one with this version and channel. */
  lemma EnsuredMeansConcludeAnswered(keys: Verifiers, req: Request, calls: seq<Call>)
    requires |req.tx.balances| > 0 && EnsuresConcluded(keys, req, calls)
    ensures exists i :: 0 <= i < |calls| - 1 && ConcludeAnswered(req, calls[i], calls[i + 1])
  {
    var i := if req.tx.isFinal && FullySigned(keys, req) then 0 else 2;
    assert ConcludeAnswered(req, calls[i], calls[i + 1]);
  }

  lemma LogMatchesShown(text: string, d: EventData, cid: Bytes32, version: uint64)
    requires EventsOf(EventLog.Conclude, text) == Events([d])
    ensures LogMatches(text, cid, version) <==> d.version == version && d.id == cid
  {
    assert [d][0] == d;
  }

  /** On a printed log the search for an earlier conclusion looks at one record only, the selected one. It
      matches exactly if the parser sets it and it has the requested version and channel. */
  lemma LogMatchesSelected(items: seq<Item>, tail: string, cid: Bytes32, version: uint64)
    requires Clean(items, tail)
    ensures var recs := RecordsOf(EventLog.Conclude, items);
            LogMatches(LogText(items, tail), cid, version) <==>
              && InRangeOf(recs) != [] && 0 <= Selected(recs) < |InRangeOf(recs)|
              && recs[Selected(recs)].version == version && recs[Selected(recs)].id == cid && cid != ZeroId()
  {
    ParsePrinted(EventLog.Conclude, items, tail);
    var parsed := ParseText(EventLog.Conclude, LogText(items, tail));
    if parsed.Set? && parsed.data.id != ZeroId() {
      LogMatchesShown(LogText(items, tail), parsed.data, cid, version);
    }
  }
}
