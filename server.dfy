/** The request dispatch of `internal/server` and the load-driven difficulty control.
    Sockets, goroutines, the lock and the sleep are not modelled. Everything the server
    draws from outside arrives as a value: the random draws behind the request ID, the
    32 challenge seed bytes, the quote, the JSON codec and BLAKE2b-256. */
module Server {
  import opened Wrappers
  import opened Uint32
  import opened GoStrings
  import opened Model
  import opened Parse
  import opened Ladder
  import opened Pow
  import opened Random
  import opened Sorting

  /** Length of the request IDs `ProcessRequest` hands out (`GetRandomString(20)`). */
  const RequestIdLength: nat := 20

  /** The errors `ProcessRequest` returns, one per `return nil, err` of the source.
      `Panic` stands for the run-time panic of `ValidateSolution` when K + 1 exceeds the
      eight words of the digest. Nothing recovers it, so in Go it ends the whole server
      process: every connection, the request cache and the control loop. The ledger an
      outcome carries after `Panic` is therefore not a state the server goes on in. */
  datatype ProcessError =
    | NotParsed(cause: ParseError)
    | ProofNotDecoded
    | InvalidProof
    | ExpiredOrNotSent
    | UnknownType
    | Panic

  /** The outside world one `ProcessRequest` call draws on. */
  datatype Env = Env(
    idPicks: seq<int>,
    seed: seq<byte>,
    quote: string,
    marshal: Challenge -> string,
    unmarshal: string -> Option<Proof>,
    h: Hash)

  /** What the random sources can deliver: 20 alphabet draws and 32 seed bytes. */
  predicate EnvOK(env: Env)
  {
    |env.idPicks| == RequestIdLength && ValidPicks(env.idPicks) && |env.seed| == 32
  }

  /** The ledger of live request IDs (the `requestCache` interface: `Set(key, challenge)`,
      `Get(key)` and `Delete(key)`). Expiry is not modelled. */
  type Ledger = map<string, Challenge>

  /** The reply or error of one request together with the ledger it leaves. */
  datatype Outcome = Outcome(reply: Result<Message, ProcessError>, ledger: Ledger)

  /** The specification of `ProcessRequest` for a ladder currently at `current`. */
  function Dispatch(ledger: Ledger, current: Difficulty, line: string, env: Env): Outcome
    requires EnvOK(env)
  {
    match ParseMessage(line)
    case Failure(e) => Outcome(Failure(NotParsed(e)), ledger)
    case Success(msg) =>
      if msg.msgType == RequestChallenge then
        var challenge := NewChallenge(EquihashAlgorithm, current, env.seed);
        var reqID := Spell(env.idPicks);
        Outcome(Success(Message(ResponseChallenge, reqID, env.marshal(challenge))),
                ledger[reqID := challenge])
      else if msg.msgType == RequestResource then
        match env.unmarshal(msg.payload)
        case None => Outcome(Failure(ProofNotDecoded), ledger)
        case Some(proof) =>
          if !Safe(proof) then Outcome(Failure(Panic), ledger)
          else if !ValidSolution(env.h, proof) then Outcome(Failure(InvalidProof), ledger)
          else if msg.requestId !in ledger then Outcome(Failure(ExpiredOrNotSent), ledger)
          else Outcome(Success(Message(ResponseResource, msg.requestId, env.quote)),
                       ledger - {msg.requestId})
      else Outcome(Failure(UnknownType), ledger)
  }

  /** The state of the control loop between two samples: the ladder cursor and the
      high-water mark `prevMaxCount`. */
  datatype Control = Control(level: nat, mark: int)

  /** One tick of `controlDifficulty` on a ladder of `count` levels. Below the threshold
      the ladder steps down (a no-op at the bottom) and the mark stays; at or above it the
      ladder steps up only when the load beats the mark, and the mark becomes the load. */
  function Tick(count: nat, threshold: int, c: Control, connNum: int): Control
  {
    if connNum < threshold then Control(Down(c.level), c.mark)
    else Control(if connNum > c.mark then Up(c.level, count) else c.level, connNum)
  }

  /** The control state after a whole sequence of samples. */
  function Ticks(count: nat, threshold: int, c: Control, loads: seq<int>): Control
    decreases |loads|
  {
    if loads == [] then c else Ticks(count, threshold, Tick(count, threshold, c, loads[0]), loads[1..])
  }

  /** `server.Server`: the ledger, the difficulty ladder and the connection threshold. */
  class Server {
    var ledger: Ledger
    const setting: Setting
    const threshold: int

    ghost predicate Valid()
      reads this, setting
    {
      setting.Valid()
    }

    /** `NewServer`, over an empty request cache. */
    constructor NewServer(threshold: int, setting: Setting)
      requires setting.Valid()
      ensures Valid()
      ensures this.threshold == threshold && this.setting == setting && ledger == map[]
    {
      this.threshold := threshold;
      this.setting := setting;
      ledger := map[];
    }

    /** `ProcessRequest`. The source calls `Set(reqID)` with one argument and takes one
        result from `Get`, against the two-argument `Set` and two-result `Get` of the
        `requestCache` interface; the model follows the interface, storing the challenge
        just built and using `Get` as a membership test. */
    method ProcessRequest(msgStr: string, env: Env) returns (r: Result<Message, ProcessError>)
      requires Valid() && EnvOK(env)
      modifies this`ledger
      ensures Outcome(r, ledger) == Dispatch(old(ledger), setting.GetDifficulty(), msgStr, env)
    {
      var parsed := ParseMessage(msgStr);
      if parsed.Failure? {
        return Failure(NotParsed(parsed.error));
      }
      var msg := parsed.value;
      if msg.msgType == RequestChallenge {
        var currentDifficulty := setting.GetDifficulty();
        var challenge := NewChallenge(EquihashAlgorithm, currentDifficulty, env.seed);
        var reqID := RandomString(env.idPicks);
        ledger := ledger[reqID := challenge];
        var challengeMarshaled := env.marshal(challenge);
        return Success(Message(ResponseChallenge, reqID, challengeMarshaled));
      } else if msg.msgType == RequestResource {
        var reqID := msg.requestId;
        var proof := env.unmarshal(msg.payload);
        if proof.None? {
          return Failure(ProofNotDecoded);
        }
        if !Safe(proof.value) {
          return Failure(Panic);
        }
        var ok := ValidateSolution(proof.value, env.h);
        if !ok {
          return Failure(InvalidProof);
        }
        var live := reqID in ledger;
        if !live {
          return Failure(ExpiredOrNotSent);
        }
        ledger := ledger - {reqID};
        return Success(Message(ResponseResource, reqID, env.quote));
      } else {
        return Failure(UnknownType);
      }
    }

    /** `controlDifficulty`, fed the successive `parallelConnectionNum` samples; the loop
        ends where the shutdown channel would close it. */
    method ControlDifficulty(loads: seq<int>)
      requires Valid()
      modifies setting
      ensures Valid()
      ensures setting.currentLevel ==
        Ticks(|setting.difficultyLevels|, threshold, Control(old(setting.currentLevel), threshold), loads).level
    {
      ghost var count := |setting.difficultyLevels|;
      ghost var target := Ticks(count, threshold, Control(setting.currentLevel, threshold), loads);
      var prevMaxCount := threshold;
      var i := 0;
      while i < |loads|
        invariant 0 <= i <= |loads| && setting.Valid()
        invariant Ticks(count, threshold, Control(setting.currentLevel, prevMaxCount), loads[i..]) == target
      {
        var connNum := loads[i];
        assert loads[i..] == [connNum] + loads[i + 1..];
        if connNum < threshold {
          if setting.IsMinDifficulty() {
            i := i + 1;
            continue;
          }
          setting.DecreaseDifficulty();
        } else {
          if connNum > prevMaxCount && !setting.IsMaxDifficulty() {
            setting.IncreaseDifficulty();
          }
          prevMaxCount := connNum;
        }
        i := i + 1;
      }
    }
  }

  // Properties of the dispatch.

  /** A line that does not parse is an error and leaves the ledger alone. */
  lemma NotParsedRejected(ledger: Ledger, d: Difficulty, line: string, env: Env)
    requires EnvOK(env) && ParseMessage(line).Failure?
    ensures Dispatch(ledger, d, line, env) == Outcome(Failure(NotParsed(ParseMessage(line).error)), ledger)
  {
  }

  /** Issuing: the reply is a ResponseChallenge under a newly drawn 20-letter alphanumeric ID
      (possibly one already live, whose entry is then overwritten) whose payload encodes an
      "equihash" challenge at the current difficulty, and that ID now maps to the challenge;
      no other entry changes. */
  lemma ChallengeIssued(ledger: Ledger, d: Difficulty, line: string, env: Env)
    requires EnvOK(env) && ParseMessage(line).Success?
    requires ParseMessage(line).value.msgType == RequestChallenge
    ensures var o := Dispatch(ledger, d, line, env);
      var id := o.reply.value.requestId;
      o.reply.Success? && o.reply.value.msgType == ResponseChallenge &&
      |id| == RequestIdLength && (forall i :: 0 <= i < |id| ==> id[i] in Letters) &&
      id in o.ledger && o.ledger[id].algorithm == EquihashAlgorithm &&
      o.ledger[id].difficulty == d && o.ledger[id].input == env.seed &&
      o.reply.value.payload == env.marshal(o.ledger[id]) &&
      (forall other :: other != id ==> (other in o.ledger <==> other in ledger))
  {
    SpellSeparatorFree(env.idPicks);
  }

  /** Every failure leaves the ledger exactly as it was; a success either adds the issued
      ID or removes the redeemed one, and nothing else. */
  lemma LedgerTransitions(ledger: Ledger, d: Difficulty, line: string, env: Env)
    requires EnvOK(env)
    ensures var o := Dispatch(ledger, d, line, env);
      (o.reply.Failure? ==> o.ledger == ledger) &&
      (o.reply.Success? ==>
        (o.reply.value.msgType == ResponseChallenge &&
         o.ledger == ledger[o.reply.value.requestId := o.ledger[o.reply.value.requestId]]) ||
        (o.reply.value.msgType == ResponseResource && o.reply.value.requestId in ledger &&
         o.ledger == ledger - {o.reply.value.requestId}))
  {
  }

  /** Admission is sound: a quote is only ever sent for a live ID and a decodable proof that
      `ValidateSolution` accepts, and it is sent under that ID. */
  lemma QuoteNeedsValidProof(ledger: Ledger, d: Difficulty, line: string, env: Env)
    requires EnvOK(env)
    requires var o := Dispatch(ledger, d, line, env);
      o.reply.Success? && o.reply.value.msgType == ResponseResource
    ensures var msg := ParseMessage(line).value;
      ParseMessage(line).Success? && msg.msgType == RequestResource &&
      msg.requestId in ledger &&
      env.unmarshal(msg.payload).Some? && Safe(env.unmarshal(msg.payload).value) &&
      ValidSolution(env.h, env.unmarshal(msg.payload).value) &&
      Dispatch(ledger, d, line, env).reply == Success(Message(ResponseResource, msg.requestId, env.quote))
  {
  }

  /** The verdict on a submitted proof comes before the ledger is consulted: a rejected proof
      is "invalid proof" whether or not its ID is live. */
  lemma InvalidProofFirst(ledger: Ledger, d: Difficulty, line: string, env: Env)
    requires EnvOK(env) && ParseMessage(line).Success?
    requires ParseMessage(line).value.msgType == RequestResource
    requires var p := env.unmarshal(ParseMessage(line).value.payload);
      p.Some? && Safe(p.value) && !ValidSolution(env.h, p.value)
    ensures Dispatch(ledger, d, line, env) == Outcome(Failure(InvalidProof), ledger)
  {
  }

  /** A valid proof for an ID that is not live is "challenge expired or not sent". */
  lemma UnknownIdRejected(ledger: Ledger, d: Difficulty, line: string, env: Env)
    requires EnvOK(env) && ParseMessage(line).Success?
    requires ParseMessage(line).value.msgType == RequestResource
    requires ParseMessage(line).value.requestId !in ledger
    requires var p := env.unmarshal(ParseMessage(line).value.payload);
      p.Some? && Safe(p.value) && ValidSolution(env.h, p.value)
    ensures Dispatch(ledger, d, line, env) == Outcome(Failure(ExpiredOrNotSent), ledger)
  {
  }

  /** At most one redemption per ID: replaying a request that earned a quote, with any
      proof at all, can no longer earn one. */
  lemma RedeemedOnce(ledger: Ledger, d: Difficulty, line: string, env: Env, d': Difficulty, env': Env)
    requires EnvOK(env) && EnvOK(env')
    requires var o := Dispatch(ledger, d, line, env);
      o.reply.Success? && o.reply.value.msgType == ResponseResource
    ensures var o := Dispatch(ledger, d, line, env);
      var o' := Dispatch(o.ledger, d', line, env');
      o.reply.value.requestId !in o.ledger &&
      (o'.reply.Failure? && o'.ledger == o.ledger)
  {
  }

  /** The stored challenge is never consulted: two ledgers with the same live IDs give the
      same reply to every line, so a valid proof for any puzzle redeems any live ID. */
  lemma ChallengeNotCompared(l1: Ledger, l2: Ledger, d: Difficulty, line: string, env: Env)
    requires EnvOK(env) && l1.Keys == l2.Keys
    ensures Dispatch(l1, d, line, env).reply == Dispatch(l2, d, line, env).reply
  {
  }

  /** Any other message type, named or not, is "unknown type". */
  lemma OtherTypesRejected(ledger: Ledger, d: Difficulty, line: string, env: Env)
    requires EnvOK(env) && ParseMessage(line).Success?
    requires ParseMessage(line).value.msgType !in {RequestChallenge, RequestResource}
    ensures Dispatch(ledger, d, line, env) == Outcome(Failure(UnknownType), ledger)
  {
  }

  /** Issue, then redeem: a valid proof submitted under the ID just issued earns the quote
      and retires the ID, whatever puzzle the proof solves. The ledger is back where it
      was when the drawn ID was new; an older entry under the same ID is gone too, since
      issuing overwrote it. */
  lemma IssueThenRedeem(ledger: Ledger, d: Difficulty, ask: string, env: Env,
                        payload: string, d': Difficulty, env': Env)
    requires EnvOK(env) && EnvOK(env')
    requires ParseMessage(ask).Success? && ParseMessage(ask).value.msgType == RequestChallenge
    requires var p := env'.unmarshal(payload); p.Some? && Safe(p.value) && ValidSolution(env'.h, p.value)
    requires '|' !in payload && (payload == [] || !IsSpace(payload[|payload| - 1]))
    ensures var o := Dispatch(ledger, d, ask, env);
      var id := o.reply.value.requestId;
      var o' := Dispatch(o.ledger, d', Stringify(Message(RequestResource, id, payload)) + "\n", env');
      o'.reply == Success(Message(ResponseResource, id, env'.quote)) &&
      o'.ledger == ledger[id := o.ledger[id]] - {id} &&
      o'.ledger.Keys == ledger.Keys - {id} &&
      (id !in ledger ==> o'.ledger == ledger)
  {
    var o := Dispatch(ledger, d, ask, env);
    var id := o.reply.value.requestId;
    SpellSeparatorFree(env.idPicks);
    ParseStringify(Message(RequestResource, id, payload));
  }

  // Two defects of the redeem path as written, and the check it evidently meant to make.

  /** As written, no work is needed: a proof that lists one index twice, for any N and K
      with K + 1 at most 8 and any seed and nonce, earns the quote under any live ID,
      whatever challenge that ID was issued with. */
  lemma FreeRedeem(ledger: Ledger, d: Difficulty, line: string, env: Env,
                   id: string, payload: string, p: Proof, x: u32)
    requires EnvOK(env) && id in ledger
    requires ParseMessage(line) == Success(Message(RequestResource, id, payload))
    requires env.unmarshal(payload) == Some(p) && p.inputs == [x, x] && BlockCount(p.k) <= HashWordCount
    ensures Dispatch(ledger, d, line, env) ==
      Outcome(Success(Message(ResponseResource, id, env.quote)), ledger - {id})
  {
    RepeatedIndexAccepted(env.h, p, x);
  }

  /** As written, one request ends the server: a proof with K = 8 and a single index makes
      `ValidateSolution` read a ninth word of the eight-word digest. */
  lemma OneRequestPanics(ledger: Ledger, d: Difficulty, line: string, env: Env,
                         id: string, payload: string, n: u32, seed: Seed, nonce: u32)
    requires EnvOK(env)
    requires ParseMessage(line) == Success(Message(RequestResource, id, payload))
    requires env.unmarshal(payload) == Some(Proof(n, 8, seed, nonce, [0]))
    ensures Dispatch(ledger, d, line, env).reply == Failure(Panic)
  {
  }

  /** What a redeemed proof evidently has to be: a solution of the challenge stored under its
      ID (the check `ValidateChallenge` makes), within the digest, with 2^K pairwise
      distinct indices in ascending order, as `FindProof` produces them. */
  predicate SolvesChallenge(h: Hash, p: Proof, ch: Challenge)
  {
    ch.algorithm == EquihashAlgorithm && MatchesChallenge(p, ch) && Safe(p) &&
    |p.inputs| == Pow2(p.k) && StrictlyAscending(p.inputs) && ValidSolution(h, p)
  }

  /** `ProcessRequest` with the evidently intended redeem path: a proof beyond the digest is
      refused as invalid instead of panicking, and a proof is only redeemed if it solves the
      challenge stored under its ID. Every other request is handled as written. */
  function DispatchChecked(ledger: Ledger, current: Difficulty, line: string, env: Env): Outcome
    requires EnvOK(env)
  {
    if ParseMessage(line).Success? && ParseMessage(line).value.msgType == RequestResource then
      var msg := ParseMessage(line).value;
      match env.unmarshal(msg.payload)
      case None => Outcome(Failure(ProofNotDecoded), ledger)
      case Some(proof) =>
        if !(Safe(proof) && ValidSolution(env.h, proof)) then Outcome(Failure(InvalidProof), ledger)
        else if msg.requestId !in ledger then Outcome(Failure(ExpiredOrNotSent), ledger)
        else if !SolvesChallenge(env.h, proof, ledger[msg.requestId]) then Outcome(Failure(InvalidProof), ledger)
        else Outcome(Success(Message(ResponseResource, msg.requestId, env.quote)), ledger - {msg.requestId})
    else Dispatch(ledger, current, line, env)
  }

  /** The corrected dispatch never panics. */
  lemma CheckedNeverPanics(ledger: Ledger, d: Difficulty, line: string, env: Env)
    requires EnvOK(env)
    ensures DispatchChecked(ledger, d, line, env).reply != Failure(Panic)
  {
  }

  /** Under the corrected dispatch a quote needs a solution of the stored challenge, with
      pairwise distinct indices. */
  lemma CheckedQuoteSolves(ledger: Ledger, d: Difficulty, line: string, env: Env)
    requires EnvOK(env)
    requires var o := DispatchChecked(ledger, d, line, env);
      o.reply.Success? && o.reply.value.msgType == ResponseResource
    ensures var msg := ParseMessage(line).value;
      var p := env.unmarshal(msg.payload).value;
      ParseMessage(line).Success? && msg.msgType == RequestResource &&
      msg.requestId in ledger && env.unmarshal(msg.payload).Some? &&
      SolvesChallenge(env.h, p, ledger[msg.requestId]) &&
      (forall i, j :: 0 <= i < j < |p.inputs| ==> p.inputs[i] != p.inputs[j])
  {
  }

  /** The proof that redeems for free as written is refused by the corrected dispatch. */
  lemma CheckedRefusesRepeat(ledger: Ledger, d: Difficulty, line: string, env: Env,
                             id: string, payload: string, p: Proof, x: u32)
    requires EnvOK(env) && id in ledger
    requires ParseMessage(line) == Success(Message(RequestResource, id, payload))
    requires env.unmarshal(payload) == Some(p) && p.inputs == [x, x] && BlockCount(p.k) <= HashWordCount
    ensures DispatchChecked(ledger, d, line, env) == Outcome(Failure(InvalidProof), ledger)
  {
    assert !StrictlyAscending(p.inputs) by {
      assert p.inputs[0] == p.inputs[1];
    }
  }

  /** The correction only refuses more: every quote it gives is the one given as written, every
      refusal as written other than the panic is the same refusal, and the panic becomes an
      "invalid proof" that leaves the ledger alone. */
  lemma CheckedRefinesDispatch(ledger: Ledger, d: Difficulty, line: string, env: Env)
    requires EnvOK(env)
    ensures var c := DispatchChecked(ledger, d, line, env);
      var o := Dispatch(ledger, d, line, env);
      (c.reply.Success? ==> c == o) &&
      (o.reply.Failure? && o.reply != Failure(Panic) ==> c == o) &&
      (o.reply == Failure(Panic) ==> c == Outcome(Failure(InvalidProof), ledger))
  {
  }

  /** An honest client is still served: a solution of the challenge stored under a live ID
      earns the quote and retires the ID. */
  lemma CheckedHonestServed(ledger: Ledger, d: Difficulty, line: string, env: Env,
                            id: string, payload: string, p: Proof)
    requires EnvOK(env) && id in ledger
    requires ParseMessage(line) == Success(Message(RequestResource, id, payload))
    requires env.unmarshal(payload) == Some(p) && SolvesChallenge(env.h, p, ledger[id])
    ensures DispatchChecked(ledger, d, line, env) ==
      Outcome(Success(Message(ResponseResource, id, env.quote)), ledger - {id})
  {
  }

  // Properties of the control loop.

  /** A tick moves the cursor by at most one level and keeps it on the ladder. */
  lemma TickStepsOnce(count: nat, threshold: int, c: Control, connNum: int)
    requires c.level < count
    ensures var n := Tick(count, threshold, c, connNum);
      n.level < count && c.level - 1 <= n.level <= c.level + 1
  {
  }

  /** Low load only ever lowers the difficulty: t samples below the threshold take the
      cursor down t levels, stopping at the bottom, and leave the mark alone. */
  lemma {:induction false} LowLoadDescends(count: nat, threshold: int, c: Control, loads: seq<int>)
    requires forall i :: 0 <= i < |loads| ==> loads[i] < threshold
    ensures Ticks(count, threshold, c, loads) ==
      Control(if c.level >= |loads| then c.level - |loads| else 0, c.mark)
    decreases |loads|
  {
    if loads != [] {
      LowLoadDescends(count, threshold, Tick(count, threshold, c, loads[0]), loads[1..]);
    }
  }

  /** The high-water mark damps the climb: a load held steady at or above the threshold
      raises the difficulty at most once, however many ticks it lasts. */
  lemma {:induction false} SteadyLoadRaisesOnce(count: nat, threshold: int, c: Control, connNum: int, t: nat)
    requires connNum >= threshold && t > 0
    ensures Ticks(count, threshold, c, seq(t, _ => connNum)) ==
      Control(if connNum > c.mark then Up(c.level, count) else c.level, connNum)
    decreases t
  {
    var loads := seq(t, _ => connNum);
    var c1 := Tick(count, threshold, c, connNum);
    assert loads[1..] == seq(t - 1, _ => connNum);
    if t > 1 {
      SteadyLoadRaisesOnce(count, threshold, c1, connNum, t - 1);
    } else {
      assert loads[1..] == [];
    }
  }

  /** Strictly rising load above the mark climbs one level per tick, stopping at the top. */
  lemma {:induction false} RisingLoadClimbs(count: nat, threshold: int, c: Control, loads: seq<int>)
    requires c.level < count && loads != []
    requires forall i :: 0 <= i < |loads| ==> loads[i] >= threshold
    requires loads[0] > c.mark
    requires forall i :: 0 < i < |loads| ==> loads[i] > loads[i - 1]
    ensures Ticks(count, threshold, c, loads) == Control(UpTimes(c.level, count, |loads|), loads[|loads| - 1])
    decreases |loads|
  {
    var c1 := Tick(count, threshold, c, loads[0]);
    if |loads| > 1 {
      RisingLoadClimbs(count, threshold, c1, loads[1..]);
    }
  }
}
