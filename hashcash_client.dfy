/** The hashcash client (`cmd/client/main.go`): read the two puzzle fields out of the
    server's prompt and count nonces up from 0 until one passes. */
module HashcashClient {
  import opened Wrappers
  import opened GoStrings
  import opened Random
  import opened HashcashServer

  /** The two fields the client takes from the prompt. */
  datatype Puzzle = Puzzle(challenge: string, difficulty: int)

  /** `strings.Split(response, " ")`, then word 7 and `strconv.Atoi` of word 11, whose
      error is ignored. A prompt with fewer than twelve words makes the indexing panic:
      `None`. */
  function ParsePrompt(response: string): Option<Puzzle>
  {
    var parts := Split(response, ' ');
    if |parts| < 12 then None else Some(Puzzle(parts[7], AtoiValue(parts[11])))
  }

  /** The client reads back exactly what the server wrote: its challenge, and its
      difficulty for every 64-bit value. */
  lemma ParsePromptRoundTrip(challenge: string, difficulty: int)
    requires ' ' !in challenge
    requires MinInt64 <= difficulty <= MaxInt64
    ensures ParsePrompt(Prompt(challenge, difficulty)) == Some(Puzzle(challenge, difficulty))
  {
    PromptSplit(challenge, difficulty);
    AtoiItoa(difficulty);
  }

  /** `findNonce`: the nonces 0, 1, 2, ... in turn until the test holds. The loop in the
      source has no bound, so the model asks for a nonce `bound` that passes; the search
      then stops at or before it. The loop's test is, word for word, the server's
      `verifyProofOfWork`, and so is the predicate here. */
  method FindNonce(sha: Sha256, challenge: string, difficulty: nat, ghost bound: nat) returns (nonce: nat)
    requires VerifyProofOfWork(sha, challenge, bound, difficulty)
    ensures VerifyProofOfWork(sha, challenge, nonce, difficulty)
    ensures forall m :: 0 <= m < nonce ==> !VerifyProofOfWork(sha, challenge, m, difficulty)
    ensures nonce <= bound
  {
    nonce := 0;
    while !VerifyProofOfWork(sha, challenge, nonce, difficulty)
      invariant nonce <= bound
      invariant forall m :: 0 <= m < nonce ==> !VerifyProofOfWork(sha, challenge, m, difficulty)
      decreases bound - nonce
    {
      nonce := nonce + 1;
    }
  }

  /** End to end: a client that parses the prompt of a connection and answers with a nonce
      passing its own test earns the quote, since the server's generated challenge holds
      no space and the difficulty it prints is the snapshot it verifies against. */
  lemma HonestClientServed(sha: Sha256, difficulty: nat, picks: seq<int>, nonce: int, quote: string)
    requires |picks| == ChallengeLength && ValidPicks(picks) && InRange(difficulty)
    ensures var x := Conversation(sha, difficulty, Spell(picks), Some(nonce), quote);
      ParsePrompt(x.prompt) == Some(Puzzle(Spell(picks), difficulty)) &&
      (VerifyProofOfWork(sha, Spell(picks), nonce, difficulty) ==>
        x.verdict == Some(SuccessPrefix + quote + "\n"))
  {
    SpellSeparatorFree(picks);
    ParsePromptRoundTrip(Spell(picks), difficulty);
  }
}
