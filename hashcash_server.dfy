/** The hashcash server the shipped binary runs (`cmd/server/main.go`): a SHA-256
    leading-zero puzzle per connection and a difficulty that follows the request rate.
    SHA-256 is a parameter; the globals `difficulty` and `requestCount` are the fields of
    one `Hashcash` object; the socket, the goroutines, the mutex and the sleep are not
    modelled. */
module HashcashServer {
  import opened Wrappers
  import opened Uint32
  import opened GoStrings
  import opened Random
  import Pow

  const BaseDifficulty: int := 4
  const MaxDifficulty: int := 8
  /** Requests per monitoring interval above which the server suspects a flood. */
  const Threshold: int := 3
  /** Length of a generated challenge. */
  const ChallengeLength: nat := 20

  /** SHA-256 over a byte string. */
  type Sha256 = seq<byte> -> Pow.Digest

  // ----- []byte(string) and %x -----

  /** The UTF-8 encoding of one code point, which is what `[]byte(s)` yields. */
  function EncodeRune(c: char): (b: seq<byte>)
    ensures 1 <= |b| <= 4
    ensures c as int < 0x80 ==> b == [c as int]
  {
    var v := c as int;
    if v < 0x80 then [v]
    else if v < 0x800 then [0xC0 + v / 0x40, 0x80 + v % 0x40]
    else if v < 0x1_0000 then [0xE0 + v / 0x1000, 0x80 + (v / 0x40) % 0x40, 0x80 + v % 0x40]
    else [0xF0 + v / 0x4_0000, 0x80 + (v / 0x1000) % 0x40, 0x80 + (v / 0x40) % 0x40, 0x80 + v % 0x40]
  }

  /** `[]byte(s)`. */
  function Utf8(s: string): seq<byte>
  {
    if s == [] then [] else EncodeRune(s[0]) + Utf8(s[1..])
  }

  /** An ASCII string encodes one byte per character. */
  lemma {:induction false} Utf8Ascii(s: string)
    requires forall i :: 0 <= i < |s| ==> s[i] as int < 0x80
    ensures |Utf8(s)| == |s| && forall i :: 0 <= i < |s| ==> Utf8(s)[i] == s[i] as int
  {
    if s != [] {
      Utf8Ascii(s[1..]);
    }
  }

  /** The lower-case hexadecimal digit of a nibble. */
  function HexDigit(v: nat): (c: char)
    requires v < 16
    ensures c == '0' <==> v == 0
  {
    if v < 10 then ('0' as int + v) as char else ('a' as int + (v - 10)) as char
  }

  /** The nibbles of a byte string, high nibble of each byte first. */
  function Nibbles(d: seq<byte>): (ns: seq<nat>)
    ensures |ns| == 2 * |d|
    ensures forall i :: 0 <= i < |ns| ==> ns[i] < 16
  {
    if d == [] then [] else [d[0] / 16, d[0] % 16] + Nibbles(d[1..])
  }

  /** `fmt.Sprintf("%x", d)`: two lower-case hex digits per byte. */
  function Hex(d: seq<byte>): (s: string)
    ensures |s| == 2 * |d|
  {
    if d == [] then [] else [HexDigit(d[0] / 16), HexDigit(d[0] % 16)] + Hex(d[1..])
  }

  /** Digit i of the hex string is the hex digit of nibble i. */
  lemma {:induction false} HexIsNibbles(d: seq<byte>)
    ensures forall i :: 0 <= i < |Hex(d)| ==> Hex(d)[i] == HexDigit(Nibbles(d)[i])
  {
    if d != [] {
      HexIsNibbles(d[1..]);
      assert forall i :: 2 <= i < |Hex(d)| ==> Hex(d)[i] == Hex(d[1..])[i - 2];
      assert forall i :: 2 <= i < |Hex(d)| ==> Nibbles(d)[i] == Nibbles(d[1..])[i - 2];
    }
  }

  // ----- The puzzle -----

  /** `verifyProofOfWork`: the hex of SHA-256 over challenge ++ decimal(nonce) starts with
      `difficulty` zeros. Go's `strings.Repeat` panics on a negative count. */
  predicate VerifyProofOfWork(sha: Sha256, challenge: string, nonce: int, difficulty: nat)
  {
    HasPrefix(Hex(sha(Utf8(challenge + Itoa(nonce)))), Repeat('0', difficulty))
  }

  /** The hex test is a nibble test: it holds exactly when the digest's first `difficulty`
      nibbles are zero (and so never when `difficulty` exceeds the 64 nibbles). */
  lemma LeadingZeroNibbles(sha: Sha256, challenge: string, nonce: int, difficulty: nat)
    ensures var ns := Nibbles(sha(Utf8(challenge + Itoa(nonce))));
      VerifyProofOfWork(sha, challenge, nonce, difficulty) <==>
      difficulty <= 64 && forall i :: 0 <= i < difficulty ==> ns[i] == 0
  {
    var d := sha(Utf8(challenge + Itoa(nonce)));
    var hex, zeros, ns := Hex(d), Repeat('0', difficulty), Nibbles(d);
    assert |d| == 32 && |hex| == 64 && |zeros| == difficulty;
    HexIsNibbles(d);
    if difficulty > 64 {
      assert !HasPrefix(hex, zeros);
      assert !VerifyProofOfWork(sha, challenge, nonce, difficulty);
    } else if forall i :: 0 <= i < difficulty ==> ns[i] == 0 {
      assert hex[..difficulty] == zeros;
      assert HasPrefix(hex, zeros);
      assert VerifyProofOfWork(sha, challenge, nonce, difficulty);
    } else {
      var i :| 0 <= i < difficulty && ns[i] != 0;
      assert hex[..difficulty][i] == hex[i] != '0';
      assert !HasPrefix(hex, zeros);
      assert !VerifyProofOfWork(sha, challenge, nonce, difficulty);
      assert Nibbles(sha(Utf8(challenge + Itoa(nonce))))[i] != 0;
    }
  }

  /** A harder puzzle is harder: every nonce that meets a difficulty meets every lower one. */
  lemma HarderImpliesEasier(sha: Sha256, challenge: string, nonce: int, d1: nat, d2: nat)
    requires d1 <= d2 && VerifyProofOfWork(sha, challenge, nonce, d2)
    ensures VerifyProofOfWork(sha, challenge, nonce, d1)
  {
    LeadingZeroNibbles(sha, challenge, nonce, d1);
    LeadingZeroNibbles(sha, challenge, nonce, d2);
  }

  /** `generateChallenge`: 20 letters of the alphanumeric alphabet, one draw each. */
  method GenerateChallenge(picks: seq<int>) returns (challenge: string)
    requires |picks| == ChallengeLength && ValidPicks(picks)
    ensures challenge == Spell(picks)
    ensures |challenge| == ChallengeLength && forall i :: 0 <= i < |challenge| ==> challenge[i] in Letters
  {
    challenge := RandomString(picks);
    SpellSeparatorFree(picks);
  }

  /** The first line `handleConnection` writes. */
  function Prompt(challenge: string, difficulty: int): string
  {
    "POW: Find a nonce such that sha256( " + challenge + " + nonce) has " + Itoa(difficulty) + " leading zeros\n"
  }

  const SuccessPrefix: string := "SUCCESS: Here is your quote: "
  const FailureLine: string := "FAILURE: Proof of work verification failed.\n"

  /** What one connection exchanges: the prompt, then the verdict line, or nothing when the
      nonce line does not scan as a decimal. */
  datatype Exchange = Exchange(prompt: string, verdict: Option<string>)

  /** The specification of `handleConnection` for the difficulty it snapshots. */
  function Conversation(sha: Sha256, difficulty: nat, challenge: string, nonce: Option<int>, quote: string): Exchange
  {
    Exchange(Prompt(challenge, difficulty),
      match nonce
      case None => None
      case Some(n) =>
        if VerifyProofOfWork(sha, challenge, n, difficulty) then Some(SuccessPrefix + quote + "\n")
        else Some(FailureLine))
  }

  // ----- The rate-driven difficulty -----

  /** One tick of `adjustDifficulty`: up one step above the threshold, down one step at or
      below it, never past the bounds. */
  function Adjust(difficulty: int, requestCount: int): int
  {
    if requestCount > Threshold && difficulty < MaxDifficulty then difficulty + 1
    else if requestCount <= Threshold && difficulty > BaseDifficulty then difficulty - 1
    else difficulty
  }

  /** The difficulty after a run of monitoring intervals, with `pending` requests already
      counted before the first one and `arrivals[i]` connections during interval i. */
  function AdjustAll(difficulty: int, pending: int, arrivals: seq<nat>): int
    decreases |arrivals|
  {
    if arrivals == [] then difficulty
    else AdjustAll(Adjust(difficulty, pending + arrivals[0]), 0, arrivals[1..])
  }

  predicate InRange(difficulty: int)
  {
    BaseDifficulty <= difficulty <= MaxDifficulty
  }

  /** A tick moves by at most one step in the direction the rate asks for, and stays in range. */
  lemma AdjustStep(difficulty: int, requestCount: int)
    requires InRange(difficulty)
    ensures var d := Adjust(difficulty, requestCount);
      InRange(d) &&
      (requestCount > Threshold ==> d == if difficulty < MaxDifficulty then difficulty + 1 else difficulty) &&
      (requestCount <= Threshold ==> d == if difficulty > BaseDifficulty then difficulty - 1 else difficulty)
  {
  }

  /** Whatever the traffic, the difficulty never leaves [4, 8]. */
  lemma {:induction false} AdjustAllInRange(difficulty: int, pending: int, arrivals: seq<nat>)
    requires InRange(difficulty)
    ensures InRange(AdjustAll(difficulty, pending, arrivals))
    decreases |arrivals|
  {
    if arrivals != [] {
      AdjustStep(difficulty, pending + arrivals[0]);
      AdjustAllInRange(Adjust(difficulty, pending + arrivals[0]), 0, arrivals[1..]);
    }
  }

  /** Sustained heavy traffic climbs one step per interval up to the cap. */
  lemma {:induction false} FloodClimbs(difficulty: int, arrivals: seq<nat>)
    requires InRange(difficulty)
    requires forall i :: 0 <= i < |arrivals| ==> arrivals[i] > Threshold
    ensures AdjustAll(difficulty, 0, arrivals) ==
      if difficulty + |arrivals| < MaxDifficulty then difficulty + |arrivals| else MaxDifficulty
    decreases |arrivals|
  {
    if arrivals != [] {
      FloodClimbs(Adjust(difficulty, arrivals[0]), arrivals[1..]);
    }
  }

  /** Quiet traffic descends one step per interval down to the base. */
  lemma {:induction false} QuietDescends(difficulty: int, arrivals: seq<nat>)
    requires InRange(difficulty)
    requires forall i :: 0 <= i < |arrivals| ==> arrivals[i] <= Threshold
    ensures AdjustAll(difficulty, 0, arrivals) ==
      if difficulty - |arrivals| > BaseDifficulty then difficulty - |arrivals| else BaseDifficulty
    decreases |arrivals|
  {
    if arrivals != [] {
      QuietDescends(Adjust(difficulty, arrivals[0]), arrivals[1..]);
    }
  }

  /** The globals of `cmd/server`. */
  class Hashcash {
    var difficulty: int
    var requestCount: int

    ghost predicate Valid()
      reads this
    {
      InRange(difficulty) && requestCount >= 0
    }

    /** The initial values `difficulty = baseDifficulty` and `requestCount = 0`. */
    constructor ()
      ensures Valid() && difficulty == BaseDifficulty && requestCount == 0
    {
      difficulty := BaseDifficulty;
      requestCount := 0;
    }

    /** One pass of the `adjustDifficulty` loop after its sleep: step, then reset the count. */
    method AdjustTick()
      requires Valid()
      modifies this
      ensures Valid()
      ensures difficulty == Adjust(old(difficulty), old(requestCount)) && requestCount == 0
    {
      if requestCount > Threshold && difficulty < MaxDifficulty {
        difficulty := difficulty + 1;
      } else if requestCount <= Threshold && difficulty > BaseDifficulty {
        difficulty := difficulty - 1;
      }
      requestCount := 0;
    }

    /** `adjustDifficulty`, run for as many intervals as `arrivals` lists; `arrivals[i]`
        connections open during interval i. */
    method AdjustDifficulty(arrivals: seq<nat>)
      requires Valid()
      modifies this
      ensures Valid() && difficulty == AdjustAll(old(difficulty), old(requestCount), arrivals)
      ensures requestCount == if arrivals == [] then old(requestCount) else 0
    {
      ghost var target := AdjustAll(difficulty, requestCount, arrivals);
      var i := 0;
      while i < |arrivals|
        invariant 0 <= i <= |arrivals| && Valid()
        invariant i > 0 ==> requestCount == 0
        invariant i == 0 ==> requestCount == old(requestCount)
        invariant AdjustAll(difficulty, requestCount, arrivals[i..]) == target
      {
        assert arrivals[i..] == [arrivals[i]] + arrivals[i + 1..];
        requestCount := requestCount + arrivals[i];
        AdjustTick();
        i := i + 1;
      }
    }

    /** `handleConnection`: count the request, snapshot the difficulty, send the prompt, read
        the nonce (`None` when it does not scan) and send the verdict. */
    method HandleConnection(sha: Sha256, picks: seq<int>, nonce: Option<int>, quote: string)
      returns (x: Exchange)
      requires Valid() && |picks| == ChallengeLength && ValidPicks(picks)
      modifies this`requestCount
      ensures Valid() && requestCount == old(requestCount) + 1
      ensures x == Conversation(sha, difficulty, Spell(picks), nonce, quote)
    {
      requestCount := requestCount + 1;
      var currentDifficulty := difficulty;
      var challenge := GenerateChallenge(picks);
      var prompt := Prompt(challenge, currentDifficulty);
      if nonce.None? {
        return Exchange(prompt, None);
      }
      if VerifyProofOfWork(sha, challenge, nonce.value, currentDifficulty) {
        x := Exchange(prompt, Some(SuccessPrefix + quote + "\n"));
      } else {
        x := Exchange(prompt, Some(FailureLine));
      }
    }
  }

  /** The snapshot is used twice: the verdict is SUCCESS exactly when the nonce solves the
      puzzle at the difficulty named in the prompt, and FAILURE otherwise. */
  lemma VerdictMatchesPrompt(sha: Sha256, difficulty: nat, challenge: string, nonce: int, quote: string)
    ensures var x := Conversation(sha, difficulty, challenge, Some(nonce), quote);
      x.prompt == Prompt(challenge, difficulty) &&
      (x.verdict == Some(SuccessPrefix + quote + "\n") <==> VerifyProofOfWork(sha, challenge, nonce, difficulty)) &&
      (x.verdict == Some(FailureLine) <==> !VerifyProofOfWork(sha, challenge, nonce, difficulty))
  {
    assert SuccessPrefix + quote + "\n" != FailureLine by {
      assert (SuccessPrefix + quote + "\n")[0] == 'S' != 'F' == FailureLine[0];
    }
  }

  // ----- The prompt's word layout -----

  /** The words of the prompt when it is split on single spaces. */
  function PromptWords(challenge: string, difficulty: int): seq<string>
  {
    ["POW:", "Find", "a", "nonce", "such", "that", "sha256(", challenge, "+", "nonce)", "has",
     Itoa(difficulty), "leading", "zeros\n"]
  }

  /** The fixed text before the challenge, as words. */
  lemma PromptHead()
    ensures Join(["POW:", "Find", "a", "nonce", "such", "that", "sha256("], ' ') == "POW: Find a nonce such that sha256("
  {
    var left: seq<string> := ["POW:", "Find", "a", "nonce"];
    var right: seq<string> := ["such", "that", "sha256("];
    assert left + right == ["POW:", "Find", "a", "nonce", "such", "that", "sha256("];
    JoinAppend(left, right, ' ');
    PromptHeadLeft();
    PromptHeadRight();
    PromptHeadGlue();
  }

  lemma PromptHeadLeft()
    ensures Join(["POW:", "Find", "a", "nonce"], ' ') == "POW: Find a nonce"
  {
  }

  lemma PromptHeadRight()
    ensures Join(["such", "that", "sha256("], ' ') == "such that sha256("
  {
  }

  lemma PromptHeadGlue()
    ensures "POW: Find a nonce" + [' '] + "such that sha256(" == "POW: Find a nonce such that sha256("
  {
  }

  /** The fixed text between the challenge and the difficulty, as words. */
  lemma PromptMiddle()
    ensures Join(["+", "nonce)", "has"], ' ') == "+ nonce) has"
  {
  }

  lemma PromptLayout(challenge: string, s: string)
    ensures "POW: Find a nonce such that sha256( " + challenge + " + nonce) has " + s + " leading zeros\n" ==
      "POW: Find a nonce such that sha256(" + [' '] +
      (challenge + [' '] + ("+ nonce) has" + [' '] + (s + [' '] + ("leading" + [' '] + "zeros\n"))))
  {
  }

  /** The prompt after the challenge splits into its six words. */
  lemma PromptTailSplit(s: string)
    requires ' ' !in s
    ensures Split("+ nonce) has" + [' '] + (s + [' '] + ("leading" + [' '] + "zeros\n")), ' ') ==
      ["+", "nonce)", "has", s, "leading", "zeros\n"]
  {
    var r3 := "leading" + [' '] + "zeros\n";
    var r2 := s + [' '] + r3;
    assert Split(r3, ' ') == ["leading", "zeros\n"] by {
      SplitAfterPiece("leading", ' ', "zeros\n");
      SplitNoSep("zeros\n", ' ');
    }
    assert Split(r2, ' ') == [s, "leading", "zeros\n"] by {
      SplitAfterPiece(s, ' ', r3);
    }
    assert Split("+ nonce) has" + [' '] + r2, ' ') == ["+", "nonce)", "has"] + Split(r2, ' ') by {
      PromptMiddle();
      SplitJoinedWords(["+", "nonce)", "has"], ' ', r2);
    }
  }

  /** The prompt up to the challenge splits into its first seven words and the challenge. */
  lemma PromptHeadSplit(challenge: string, r1: string)
    requires ' ' !in challenge
    ensures Split(Join(["POW:", "Find", "a", "nonce", "such", "that", "sha256("], ' ') + [' '] + (challenge + [' '] + r1), ' ') ==
      ["POW:", "Find", "a", "nonce", "such", "that", "sha256(", challenge] + Split(r1, ' ')
  {
    var w1: seq<string> := ["POW:", "Find", "a", "nonce", "such", "that", "sha256("];
    SplitAfterPiece(challenge, ' ', r1);
    SplitJoinedWords(w1, ' ', challenge + [' '] + r1);
    assert w1 + ([challenge] + Split(r1, ' ')) == w1 + [challenge] + Split(r1, ' ');
  }

  /** With a space-free challenge, word 7 of the prompt is the challenge and word 11 the
      decimal difficulty. */
  lemma PromptSplit(challenge: string, difficulty: int)
    requires ' ' !in challenge
    ensures Split(Prompt(challenge, difficulty), ' ') == PromptWords(challenge, difficulty)
  {
    var s := Itoa(difficulty);
    ItoaShape(difficulty);
    assert ' ' !in s;
    var r1 := "+ nonce) has" + [' '] + (s + [' '] + ("leading" + [' '] + "zeros\n"));
    PromptLayout(challenge, s);
    PromptHead();
    PromptHeadSplit(challenge, r1);
    PromptTailSplit(s);
  }
}
