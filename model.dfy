/** The shared records of `internal/model` and `config`: difficulties, challenges
    and the `type|id|payload` wire message. */
module Model {
  import opened Uint32
  import opened GoStrings

  /** `config.Difficulty`: one level of the configured ladder. */
  datatype ConfigDifficulty = ConfigDifficulty(n: int, k: int)

  /** `model.Difficulty`: the bit width N and the number of rounds K. */
  datatype Difficulty = Difficulty(numOfBits: int, length: int)

  const EquihashAlgorithm: string := "equihash"

  /** `model.Challenge`: algorithm tag, difficulty and the random seed bytes. */
  datatype Challenge = Challenge(algorithm: string, difficulty: Difficulty, input: seq<byte>)

  /** `model.NewChallenge`, with the 32 bytes that `crypto/rand` would supply passed in. */
  function NewChallenge(algo: string, dfc: Difficulty, seed: seq<byte>): (c: Challenge)
    requires |seed| == 32
    ensures c.algorithm == algo && c.difficulty == dfc && |c.input| == 32
  {
    Challenge(algo, dfc, seed)
  }

  // `model.MessageType` is a Go `int`; these are its named values.
  const Unknown: int := 0
  const RequestChallenge: int := 1
  const ResponseChallenge: int := 2
  const RequestResource: int := 3
  const ResponseResource: int := 4

  /** `model.Message`. */
  datatype Message = Message(msgType: int, requestId: string, payload: string)

  /** `Message.Stringify`: `fmt.Sprintf("%d|%s|%s", Type, RequestID, Payload)`. */
  function Stringify(m: Message): string
  {
    Itoa(m.msgType) + "|" + m.requestId + "|" + m.payload
  }

  /** Without `|` in the request ID and payload, the line splits into exactly the decimal type,
      the request ID and the payload. */
  lemma StringifySplitsInThree(m: Message)
    requires '|' !in m.requestId && '|' !in m.payload
    ensures Split(Stringify(m), '|') == [Itoa(m.msgType), m.requestId, m.payload]
  {
    ItoaShape(m.msgType);
    assert '|' !in Itoa(m.msgType);
    SplitThree(Itoa(m.msgType), m.requestId, m.payload, '|');
  }
}
