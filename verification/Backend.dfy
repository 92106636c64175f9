/** channel/backend.go: the bytes that are signed, verified and hashed, and the conversions of
    connector/serialize.go that feed them. */
module Backend {
  import opened Bytes
  import opened Encoding

  datatype Error = StateIncompatible | AllocIncompatible | NegativeBalance | BalanceTooLarge | BadData

  /** A go-perun state. `valid` is the answer of its own Valid method and `data` what its
      MarshalBinary gave, None for an error. */
  datatype PerunState = PerunState(
    id: Bytes32, version: uint64, assets: nat, balances: seq<seq<int>>, locked: nat, isFinal: bool,
    data: Option<seq<byte>>, valid: bool)

  /** The connector's state, ready for the canister. */
  datatype State = State(channel: Bytes32, version: uint64, balances: seq<uint64>, final: bool, data: seq<byte>)

  function MakeBalance(b: int): Result<uint64, Error> {
    if b < 0 then Err(NegativeBalance) else if b > MAX_BALANCE then Err(BalanceTooLarge) else Ok(b)
  }

  /** Converts from the left and stops at the first error. */
  function MakeBalances(bals: seq<int>): Result<seq<uint64>, Error> {
    if bals == [] then Ok([])
    else
      match MakeBalances(bals[..|bals| - 1])
      case Err(e) => Err(e)
      case Ok(bs) => match MakeBalance(bals[|bals| - 1]) case Err(e) => Err(e) case Ok(b) => Ok(bs + [b])
  }

  function AllocOf(s: PerunState): Result<seq<uint64>, Error>
    requires |s.balances| > 0
  {
    if s.assets != 1 || |s.balances| != 1 || s.locked != 0 then Err(AllocIncompatible)
    else MakeBalances(s.balances[0])
  }

  lemma {:induction false} MakeBalancesError(bals: seq<int>, i: nat)
    requires i <= |bals| && MakeBalances(bals[..i]).Err?
    ensures MakeBalances(bals) == MakeBalances(bals[..i])
  {
    if i < |bals| {
      var front := bals[..|bals| - 1];
      assert front[..i] == bals[..i];
      MakeBalancesError(front, i);
    } else {
      assert bals[..i] == bals;
    }
  }

  /** An allocation converts exactly when every balance is in 0..2^30, and then unchanged. */
  lemma {:induction false} MakeBalancesMeaning(bals: seq<int>)
    ensures MakeBalances(bals).Ok? <==> forall i :: 0 <= i < |bals| ==> 0 <= bals[i] <= MAX_BALANCE
    ensures MakeBalances(bals).Ok? ==> MakeBalances(bals).value == bals
  {
    if bals != [] {
      var front := bals[..|bals| - 1];
      MakeBalancesMeaning(front);
      assert bals == front + [bals[|bals| - 1]];
    }
  }

  /** Stops at the first balance that does not convert. */
  method MakeAlloc(s: PerunState) returns (r: Result<seq<uint64>, Error>)
    requires |s.balances| > 0
    ensures r == AllocOf(s)
  {
    if s.assets != 1 || |s.balances| != 1 || s.locked != 0 { return Err(AllocIncompatible); }
    var bals := s.balances[0];
    var ret := [];
    for i := 0 to |bals|
      invariant MakeBalances(bals[..i]) == Ok(ret)
    {
      assert bals[..i + 1][..i] == bals[..i];
      match MakeBalance(bals[i])
      case Err(e) =>
        MakeBalancesError(bals, i + 1);
        return Err(e);
      case Ok(b) =>
        ret := ret + [b];
    }
    assert bals[..|bals|] == bals;
    return Ok(ret);
  }

  /** A state that go-perun calls valid has at least one row of balances. */
  ghost predicate Admissible(s: PerunState) {
    s.valid ==> |s.balances| > 0
  }

  function ChainState(s: PerunState): Result<State, Error>
    requires Admissible(s)
  {
    if !s.valid then Err(StateIncompatible)
    else
      match AllocOf(s)
      case Err(e) => Err(e)
      case Ok(bals) =>
        if s.data == None then Err(BadData) else Ok(State(s.id, s.version, bals, s.isFinal, s.data.value))
  }

  predicate InBounds(b: int) { 0 <= b <= MAX_BALANCE }

  predicate SingleAsset(s: PerunState) {
    s.assets == 1 && |s.balances| == 1 && s.locked == 0
  }

  /** The conversion fails because of the first balance that is out of bounds. */
  lemma {:induction false} FirstBadBalance(bals: seq<int>, i: nat)
    requires i < |bals| && !InBounds(bals[i]) && forall j :: 0 <= j < i ==> InBounds(bals[j])
    ensures MakeBalances(bals) == Err(if bals[i] < 0 then NegativeBalance else BalanceTooLarge)
  {
    MakeBalancesMeaning(bals[..i]);
    assert bals[..i + 1][..i] == bals[..i];
    MakeBalancesError(bals, i + 1);
  }

  /** What StateForChain accepts: a valid state of one asset, without locked funds, whose balances are in
      0..2^30 and whose data can be written. It keeps every field. The error of a valid state of one
      asset tells of its first bad balance, and only then of its data. */
  lemma ChainStateMeaning(s: PerunState)
    requires Admissible(s)
    ensures ChainState(s).Ok? <==>
      s.valid && SingleAsset(s) && (forall i :: 0 <= i < |s.balances[0]| ==> InBounds(s.balances[0][i])) && s.data.Some?
    ensures ChainState(s).Ok? ==> ChainState(s).value == State(s.id, s.version, s.balances[0], s.isFinal, s.data.value)
    ensures ChainState(s) == Err(StateIncompatible) <==> !s.valid
    ensures ChainState(s) == Err(AllocIncompatible) <==> s.valid && !SingleAsset(s)
    ensures ChainState(s) == Err(BadData) <==>
      s.valid && SingleAsset(s) && (forall i :: 0 <= i < |s.balances[0]| ==> InBounds(s.balances[0][i])) && s.data == None
    ensures s.valid && SingleAsset(s) ==>
      forall i :: 0 <= i < |s.balances[0]| && !InBounds(s.balances[0][i]) && (forall j :: 0 <= j < i ==> InBounds(s.balances[0][j]))
        ==> ChainState(s) == Err(if s.balances[0][i] < 0 then NegativeBalance else BalanceTooLarge)
  {
    if s.valid && SingleAsset(s) {
      var bals := s.balances[0];
      MakeBalancesMeaning(bals);
      NotIncompatible(bals);
      forall i | 0 <= i < |bals| && !InBounds(bals[i]) && (forall j :: 0 <= j < i ==> InBounds(bals[j]))
        ensures ChainState(s) == Err(if bals[i] < 0 then NegativeBalance else BalanceTooLarge)
      {
        FirstBadBalance(bals, i);
      }
    }
  }

  lemma {:induction false} NotIncompatible(bals: seq<int>)
    ensures MakeBalances(bals).Err? ==> MakeBalances(bals).error in {NegativeBalance, BalanceTooLarge}
  {
    if bals != [] {
      NotIncompatible(bals[..|bals| - 1]);
    }
  }

  method StateForChain(s: PerunState) returns (r: Result<State, Error>)
    requires Admissible(s)
    ensures r == ChainState(s)
  {
    if !s.valid { return Err(StateIncompatible); }
    var alloc := MakeAlloc(s);
    if alloc.Err? { return Err(alloc.error); }
    if s.data == None { return Err(BadData); }
    r := Ok(State(s.id, s.version, alloc.value, s.isFinal, s.data.value));
  }

  // ---- The signed message ----

  function BalanceBytes(bals: seq<uint64>): seq<byte> {
    if bals == [] then [] else MinLe(bals[0]) + BalanceBytes(bals[1..])
  }

  function BoolToBytes(b: bool): seq<byte> {
    if b then [1] else [0]
  }

  function Message(s: State): seq<byte> {
    s.channel + LeBytes(8, s.version) + BalanceBytes(s.balances) + BoolToBytes(s.final)
  }

  lemma {:induction false} BalanceBytesAppend(bals: seq<uint64>, b: uint64)
    ensures BalanceBytes(bals + [b]) == BalanceBytes(bals) + MinLe(b)
  {
    if bals == [] {
      assert BalanceBytes([b]) == MinLe(b) + BalanceBytes([]);
    } else {
      assert (bals + [b])[1..] == bals[1..] + [b];
      BalanceBytesAppend(bals[1..], b);
    }
  }

  type Signer = seq<byte> -> Option<seq<byte>>
  type Verifier = (seq<byte>, seq<byte>) -> bool

  /** None stands for an error return. */
  method Sign(sign: Signer, s: PerunState) returns (sig: Option<seq<byte>>)
    requires Admissible(s)
    ensures sig == match ChainState(s) case Err(_) => None case Ok(c) => sign(Message(c))
  {
    var r := StateForChain(s);
    if r.Err? { return None; }
    var c := r.value;
    var bytes := c.channel + LeBytes(8, c.version);
    for i := 0 to |c.balances|
      invariant bytes == c.channel + LeBytes(8, c.version) + BalanceBytes(c.balances[..i])
    {
      BalanceBytesAppend(c.balances[..i], c.balances[i]);
      assert c.balances[..i + 1] == c.balances[..i] + [c.balances[i]];
      var a := BigToLittleEndianBytes(c.balances[i]);
      bytes := bytes + a[..];
    }
    assert c.balances[..|c.balances|] == c.balances;
    sig := sign(bytes + BoolToBytes(c.final));
  }

  /** None stands for an error return. */
  method Verify(verify: Verifier, s: PerunState, sig: seq<byte>) returns (ok: Option<bool>)
    requires Admissible(s)
    ensures ok == match ChainState(s) case Err(_) => None case Ok(c) => Some(verify(Message(c), sig))
  {
    var r := StateForChain(s);
    if r.Err? { return None; }
    var c := r.value;
    var bytes := c.channel + LeBytes(8, c.version);
    for i := 0 to |c.balances|
      invariant bytes == c.channel + LeBytes(8, c.version) + BalanceBytes(c.balances[..i])
    {
      BalanceBytesAppend(c.balances[..i], c.balances[i]);
      assert c.balances[..i + 1] == c.balances[..i] + [c.balances[i]];
      var a := BigToLittleEndianBytes(c.balances[i]);
      bytes := bytes + a[..];
    }
    assert c.balances[..|c.balances|] == c.balances;
    ok := Some(verify(bytes + BoolToBytes(c.final), sig));
  }

  /** Agreement in what is signed: the balances count only as digits written one after the other. */
  predicate SameSigned(s: State, t: State) {
    && s.channel == t.channel && s.version == t.version && s.final == t.final
    && BalanceBytes(s.balances) == BalanceBytes(t.balances)
  }

  /** Two states are signed with the same bytes exactly when channel, version and final flag agree
      and the balances, written one after the other without separators, give the same digits. The
      application data does not take part. */
  lemma SameMessage(s: State, t: State)
    ensures Message(s) == Message(t) <==> SameSigned(s, t)
  {
    MessageParts(s);
    MessageParts(t);
    Le64RoundTrip(s.version);
    Le64RoundTrip(t.version);
  }

  lemma MessageParts(s: State)
    ensures var m := Message(s);
            && |m| >= 41 && m[..32] == s.channel && m[32..40] == LeBytes(8, s.version)
            && m[40..|m| - 1] == BalanceBytes(s.balances) && m[|m| - 1..] == BoolToBytes(s.final)
            && m[|m| - 1] == (if s.final then 1 else 0)
  {
  }

  lemma {:induction false} BalanceAt(bals: seq<uint64>, i: nat)
    requires i < |bals|
    ensures var at := |BalanceBytes(bals[..i])|;
            at + |MinLe(bals[i])| <= |BalanceBytes(bals)| && BalanceBytes(bals)[at..at + |MinLe(bals[i])|] == MinLe(bals[i])
    ensures |BalanceBytes(bals[..i + 1])| == |BalanceBytes(bals[..i])| + |MinLe(bals[i])|
  {
    var at, w := |BalanceBytes(bals[..i])|, |MinLe(bals[i])|;
    assert BalanceBytes(bals) == MinLe(bals[0]) + BalanceBytes(bals[1..]);
    if i > 0 {
      var rest := bals[1..];
      assert bals[..i][1..] == rest[..i - 1] && bals[..i + 1][1..] == rest[..i];
      BalanceAt(rest, i - 1);
      var at' := |BalanceBytes(rest[..i - 1])|;
      assert BalanceBytes(bals)[at..at + w] == BalanceBytes(rest)[at'..at' + w];
    } else {
      assert bals[..1][1..] == [];
    }
  }

  lemma InnerSlice(m: seq<byte>, a: nat, c: nat, x: nat, w: nat)
    requires a <= c <= |m| && x + w <= c - a
    ensures m[a..c][x..x + w] == m[a + x..a + x + w]
  {
    var inner, direct := m[a..c][x..x + w], m[a + x..a + x + w];
    assert forall i :: 0 <= i < w ==> inner[i] == direct[i];
  }

  lemma BalanceReads(bals: seq<uint64>, i: nat)
    requires i < |bals|
    ensures var at, w := |BalanceBytes(bals[..i])|, |MinLe(bals[i])|;
            at + w <= |BalanceBytes(bals)| && LeValue(BalanceBytes(bals)[at..at + w]) == bals[i]
  {
    BalanceAt(bals, i);
    MinLeUnique(MinLe(bals[i]), bals[i]);
    assert BalanceBytes(bals)[|BalanceBytes(bals[..i])|..|BalanceBytes(bals[..i])| + |MinLe(bals[i])|] == MinLe(bals[i]);
  }

  lemma BalanceReadsIn(m: seq<byte>, bals: seq<uint64>, i: nat)
    requires i < |bals| && |m| >= 41 && m[40..|m| - 1] == BalanceBytes(bals)
    ensures var at, w := 40 + |BalanceBytes(bals[..i])|, |MinLe(bals[i])|;
            |m| == 41 + |BalanceBytes(bals)| && at + w < |m| && LeValue(m[at..at + w]) == bals[i]
  {
    assert |m[40..|m| - 1]| == |m| - 41;
    BalanceReads(bals, i);
    InnerSlice(m, 40, |m| - 1, |BalanceBytes(bals[..i])|, |MinLe(bals[i])|);
  }

  /** What is signed, byte by byte: 32 of channel, 8 of version with the least significant byte first, the
      digits of the balances in their order, and 1 or 0 for a final or other state. */
  lemma MessageMeaning(s: State, i: nat)
    requires i < |s.balances|
    ensures var m, at := Message(s), 40 + |BalanceBytes(s.balances[..i])|;
            && |m| == 41 + |BalanceBytes(s.balances)|
            && m[..32] == s.channel && LeValue(m[32..40]) == s.version
            && at + |MinLe(s.balances[i])| < |m| && LeValue(m[at..at + |MinLe(s.balances[i])|]) == s.balances[i]
            && m[|m| - 1] == if s.final then 1 else 0
  {
    MessageParts(s);
    Le64RoundTrip(s.version);
    BalanceReadsIn(Message(s), s.balances, i);
  }

  /** The byte width of every balance. */
  function WidthProfile(bals: seq<uint64>): seq<nat> {
    seq(|bals|, i requires 0 <= i < |bals| => |MinLe(bals[i])|)
  }

  lemma {:induction false} SameWidthsSameBalances(x: seq<uint64>, y: seq<uint64>)
    requires BalanceBytes(x) == BalanceBytes(y) && WidthProfile(x) == WidthProfile(y)
    ensures x == y
  {
    assert |x| == |WidthProfile(x)| == |WidthProfile(y)| == |y|;
    if x != [] {
      assert WidthProfile(x)[0] == WidthProfile(y)[0];
      assert MinLe(x[0]) == BalanceBytes(x)[..|MinLe(x[0])|] == MinLe(y[0]);
      MinLeUnique(MinLe(x[0]), x[0]);
      MinLeUnique(MinLe(y[0]), y[0]);
      assert BalanceBytes(x[1..]) == BalanceBytes(x)[|MinLe(x[0])|..];
      assert BalanceBytes(y[1..]) == BalanceBytes(y)[|MinLe(y[0])|..];
      assert WidthProfile(x[1..]) == WidthProfile(x)[1..] == WidthProfile(y)[1..] == WidthProfile(y[1..]);
      SameWidthsSameBalances(x[1..], y[1..]);
      assert x == [x[0]] + x[1..] && y == [y[0]] + y[1..];
    }
  }

  /** The message does not determine the balances. Among states with equal messages they are equal
      exactly when their byte widths are. */
  lemma MessageDeterminesBalances(s: State, t: State)
    requires Message(s) == Message(t)
    ensures s.balances == t.balances <==> WidthProfile(s.balances) == WidthProfile(t.balances)
  {
    SameMessage(s, t);
    if WidthProfile(s.balances) == WidthProfile(t.balances) {
      SameWidthsSameBalances(s.balances, t.balances);
    }
  }

  /** In particular a zero balance leaves no trace: whoever owns everything, the bytes are the same. */
  lemma OwnerOfEverythingIsNotSigned(channel: Bytes32, version: uint64, final: bool, data: seq<byte>, b: uint64)
    ensures Message(State(channel, version, [b, 0], final, data)) == Message(State(channel, version, [0, b], final, data))
  {
    assert BalanceBytes([b, 0]) == MinLe(b) + BalanceBytes([0]);
    assert BalanceBytes([0, b]) == [] + BalanceBytes([b]);
    assert BalanceBytes([b]) == MinLe(b) + BalanceBytes([]);
    assert BalanceBytes([0]) == [] + BalanceBytes([]);
  }

  /** An ideal signature scheme: a signature is accepted for the message it was made for, only. */
  ghost predicate Ideal(sign: Signer, verify: Verifier) {
    forall m, m' {:trigger sign(m), verify(m', sign(m).value)} ::
      sign(m).Some? ==> (verify(m', sign(m).value) <==> m' == m)
  }

  /** With an ideal scheme, Verify accepts for state `t` the signature that Sign made for `s` exactly
      when the two agree in channel, version, final flag and concatenated balance digits; so it
      always accepts it for `s` itself. */
  lemma VerifyAcceptsSigned(sign: Signer, verify: Verifier, s: State, t: State)
    requires Ideal(sign, verify) && sign(Message(s)).Some?
    ensures verify(Message(s), sign(Message(s)).value)
    ensures verify(Message(t), sign(Message(s)).value) <==> SameSigned(s, t)
  {
    SameMessage(s, t);
  }

  // ---- The channel identifier ----

  /** go-perun parameters: `parts` are the marshalled participant addresses, `app` the marshalled
      application address, None for a channel without one. */
  datatype PerunParams = PerunParams(nonce: int, parts: seq<seq<byte>>, challengeDuration: uint64, app: Option<seq<byte>>)

  datatype Params = Params(nonce: seq<byte>, participants: seq<Bytes32>, challengeDuration: uint64, app: Bytes32)

  /** Fails at the first address that is not 32 bytes long. */
  method MakeOffIdents(parts: seq<seq<byte>>) returns (r: Option<seq<Bytes32>>)
    ensures r == if forall i :: 0 <= i < |parts| ==> |parts[i]| == 32 then Some(parts) else None
  {
    var ret: seq<Bytes32> := [];
    for i := 0 to |parts|
      invariant ret == parts[..i]
    {
      if |parts[i]| != 32 { return None; }
      ret := ret + [parts[i]];
    }
    assert ret == parts;
    return Some(ret);
  }

  predicate Convertible(p: PerunParams) {
    && MakeNonce(p.nonce).Some?
    && (forall i :: 0 <= i < |p.parts| ==> |p.parts[i]| == 32)
    && (p.app.Some? ==> |p.app.value| == 32)
  }

  method NewParams(p: PerunParams) returns (r: Option<Params>)
    ensures r.Some? <==> Convertible(p)
    ensures r.Some? ==> r.value == Params(
      MakeNonce(p.nonce).value, p.parts, p.challengeDuration, if p.app.Some? then p.app.value else Zeros(32))
  {
    var nonce := MakeNonce(p.nonce);
    if nonce == None { return None; }
    var parts := MakeOffIdents(p.parts);
    if parts == None { return None; }
    var app: Bytes32 := Zeros(32);
    if p.app.Some? {
      if |p.app.value| != 32 { return None; }
      app := p.app.value;
    }
    r := Some(Params(nonce.value, parts.value, p.challengeDuration, app));
  }

  type Digest = d: seq<byte> | |d| == 64 witness seq(64, _ => 0)

  function Preimage(p: PerunParams): seq<byte>
    requires Convertible(p) && |p.parts| >= 2
  {
    MakeNonce(p.nonce).value + p.parts[0] + p.parts[1] + LeBytes(8, p.challengeDuration)
  }

  /** None stands for the panic on parameters that do not convert. Fewer than two participants would
      be an index panic. */
  method CalcID(sha512: seq<byte> -> Digest, p: PerunParams) returns (id: Option<Bytes32>)
    requires |p.parts| >= 2
    ensures id == if Convertible(p) then Some(sha512(Preimage(p))[..32]) else None
  {
    var params := NewParams(p);
    if params == None { return None; }
    var icp := params.value;
    var slices: seq<seq<byte>> := [];
    for i := 0 to |icp.participants|
      invariant slices == icp.participants[..i]
    {
      slices := slices + [icp.participants[i]];
    }
    var enc: seq<byte> := icp.nonce + slices[0] + slices[1] + LeBytes(8, icp.challengeDuration);
    assert slices == p.parts;
    assert enc == Preimage(p);
    id := Some(sha512(enc)[..32]);
  }

  lemma NonceLength(n: int)
    requires MakeNonce(n).Some?
    ensures |MakeNonce(n).value| == 32
  {
    NonceFits(n);
  }

  lemma PreimageParts(p: PerunParams)
    requires Convertible(p) && |p.parts| >= 2
    ensures var b := Preimage(p);
            && |b| == 104 && b[..32] == MakeNonce(p.nonce).value && b[32..64] == p.parts[0]
            && b[64..96] == p.parts[1] && b[96..] == LeBytes(8, p.challengeDuration)
  {
    NonceLength(p.nonce);
  }

  /** What is hashed, byte by byte: the nonce at the left of 32 bytes, two addresses of 32 bytes, and 8 of
      challenge duration with the least significant byte first. */
  lemma PreimageMeaning(p: PerunParams)
    requires Convertible(p) && |p.parts| >= 2
    ensures var b := Preimage(p);
            && |b| == 104 && b[32..64] == p.parts[0] && b[64..96] == p.parts[1]
            && LeValue(b[96..104]) == p.challengeDuration
            && |BeBytes(p.nonce)| <= 32 && BeValue(b[..|BeBytes(p.nonce)|]) == p.nonce
            && forall i :: |BeBytes(p.nonce)| <= i < 32 ==> b[i] == 0
  {
    var b := Preimage(p);
    PreimageParts(p);
    NonceFits(p.nonce);
    BeRoundTrip(p.nonce);
    Le64RoundTrip(p.challengeDuration);
    assert b[96..104] == b[96..];
    assert b[..|BeBytes(p.nonce)|] == b[..32][..|BeBytes(p.nonce)|] == BeBytes(p.nonce);
    assert forall i :: 0 <= i < 32 ==> b[i] == b[..32][i];
  }

  lemma SameParts(p: PerunParams, q: PerunParams)
    requires Convertible(p) && Convertible(q) && |p.parts| >= 2 && |q.parts| >= 2
    ensures Preimage(p) == Preimage(q) <==>
      && MakeNonce(p.nonce).value == MakeNonce(q.nonce).value
      && p.parts[0] == q.parts[0] && p.parts[1] == q.parts[1]
      && LeBytes(8, p.challengeDuration) == LeBytes(8, q.challengeDuration)
  {
    PreimageParts(p);
    PreimageParts(q);
  }

  /** Two channels hash the same bytes exactly when their first two participants and challenge
      durations agree and one nonce is the other times a power of 256. Neither the application nor
      further participants take part. */
  lemma SamePreimage(p: PerunParams, q: PerunParams)
    requires Convertible(p) && Convertible(q) && |p.parts| >= 2 && |q.parts| >= 2
    ensures Preimage(p) == Preimage(q) <==>
      && p.parts[0] == q.parts[0] && p.parts[1] == q.parts[1] && p.challengeDuration == q.challengeDuration
      && (PowerMultiple(p.nonce, q.nonce) || PowerMultiple(q.nonce, p.nonce))
  {
    SameParts(p, q);
    Le64RoundTrip(p.challengeDuration);
    Le64RoundTrip(q.challengeDuration);
    NonceCollision(p.nonce, q.nonce);
  }
}
