/** The little-endian conversions between uint32 slices and byte slices
    (`Uint32ArrayToBytes`, `BytesToUint32Array` with `binary.LittleEndian`,
    the only byte order their callers pass). */
module Convert {
  import opened Uint32

  /** Byte `b` of `v` in little-endian order: `byte(v >> (8 * b))`. */
  function ByteOf(v: u32, b: nat): byte
    requires b < 4
  {
    if b == 0 then v % 0x100
    else if b == 1 then (v / 0x100) % 0x100
    else if b == 2 then (v / 0x1_0000) % 0x100
    else (v / 0x100_0000) % 0x100
  }

  /** The word whose little-endian bytes are b0, b1, b2, b3 (`binary.LittleEndian.Uint32`). */
  function WordOf(b0: byte, b1: byte, b2: byte, b3: byte): u32
  {
    b0 + 0x100 * b1 + 0x1_0000 * b2 + 0x100_0000 * b3
  }

  /** The four bytes `PutUint32` writes for `v`. */
  function EncodeWord(v: u32): seq<byte>
  {
    [ByteOf(v, 0), ByteOf(v, 1), ByteOf(v, 2), ByteOf(v, 3)]
  }

  lemma WordOfBytes(v: u32)
    ensures WordOf(ByteOf(v, 0), ByteOf(v, 1), ByteOf(v, 2), ByteOf(v, 3)) == v
  {
    var q1 := v / 0x100;
    var q2 := q1 / 0x100;
    var q3 := q2 / 0x100;
    assert v == v % 0x100 + 0x100 * q1;
    assert q1 == q1 % 0x100 + 0x100 * q2;
    assert q2 == q2 % 0x100 + 0x100 * q3;
    assert v / 0x1_0000 == q2;
    assert v / 0x100_0000 == q3;
    assert q3 < 0x100;
  }

  lemma BytesOfWord(b0: byte, b1: byte, b2: byte, b3: byte)
    ensures var v := WordOf(b0, b1, b2, b3);
            ByteOf(v, 0) == b0 && ByteOf(v, 1) == b1 && ByteOf(v, 2) == b2 && ByteOf(v, 3) == b3
  {
    var v := WordOf(b0, b1, b2, b3);
    assert v / 0x100 == b1 + 0x100 * b2 + 0x1_0000 * b3;
    assert v / 0x1_0000 == b2 + 0x100 * b3;
    assert v / 0x100_0000 == b3;
  }

  /** Reference definition of `Uint32ArrayToBytes(arr, binary.LittleEndian)`. */
  function EncodeLE(arr: seq<u32>): (buf: seq<byte>)
    ensures |buf| == 4 * |arr|
  {
    if arr == [] then [] else EncodeWord(arr[0]) + EncodeLE(arr[1..])
  }

  /** Reference definition of `BytesToUint32Array(buf, binary.LittleEndian)`. */
  function DecodeLE(buf: seq<byte>): (arr: seq<u32>)
    ensures |arr| == |buf| / 4
    decreases |buf|
  {
    if |buf| < 4 then [] else [WordOf(buf[0], buf[1], buf[2], buf[3])] + DecodeLE(buf[4..])
  }

  /** Byte 4i+b of the encoding is byte b of word i. */
  lemma {:induction false} EncodeLEAt(arr: seq<u32>, i: nat, b: nat)
    requires i < |arr| && b < 4
    ensures EncodeLE(arr)[4 * i + b] == ByteOf(arr[i], b)
  {
    if i > 0 {
      EncodeLEAt(arr[1..], i - 1, b);
      assert EncodeLE(arr)[4 * i + b] == EncodeLE(arr[1..])[4 * (i - 1) + b];
    }
  }

  /** Word i of the decoding is built from bytes 4i..4i+3 and from nothing else. */
  lemma {:induction false} DecodeLEAt(buf: seq<byte>, i: nat)
    requires i < |buf| / 4
    ensures DecodeLE(buf)[i] == WordOf(buf[4 * i], buf[4 * i + 1], buf[4 * i + 2], buf[4 * i + 3])
    decreases i
  {
    if i > 0 {
      DecodeLEAt(buf[4..], i - 1);
    }
  }

  /** Decoding an encoding gives the words back. */
  lemma {:induction false} DecodeEncode(arr: seq<u32>)
    ensures DecodeLE(EncodeLE(arr)) == arr
  {
    if arr != [] {
      var buf := EncodeLE(arr);
      assert buf[..4] == EncodeWord(arr[0]);
      assert buf[4..] == EncodeLE(arr[1..]);
      WordOfBytes(arr[0]);
      DecodeEncode(arr[1..]);
    }
  }

  /** Encoding a decoding gives back the bytes, up to the last whole word. */
  lemma {:induction false} EncodeDecode(buf: seq<byte>)
    ensures EncodeLE(DecodeLE(buf)) == buf[..4 * (|buf| / 4)]
    decreases |buf|
  {
    if |buf| >= 4 {
      var arr := DecodeLE(buf);
      BytesOfWord(buf[0], buf[1], buf[2], buf[3]);
      assert arr[1..] == DecodeLE(buf[4..]);
      EncodeDecode(buf[4..]);
      assert |buf[4..]| / 4 == |buf| / 4 - 1;
      assert buf[..4 * (|buf| / 4)] == buf[..4] + buf[4..][..4 * (|buf[4..]| / 4)];
    }
  }

  /** The trailing |buf| mod 4 bytes do not take part in the decoding. */
  lemma {:induction false} DecodeIgnoresTail(buf: seq<byte>)
    ensures DecodeLE(buf) == DecodeLE(buf[..4 * (|buf| / 4)])
    decreases |buf|
  {
    if |buf| >= 4 {
      var cut := buf[..4 * (|buf| / 4)];
      assert cut[..4] == buf[..4];
      assert cut[4..] == buf[4..][..4 * (|buf[4..]| / 4)];
      DecodeIgnoresTail(buf[4..]);
    }
  }

  /** `Uint32ArrayToBytes(arr, binary.LittleEndian)`: one `PutUint32` per word into a fresh buffer. */
  method Uint32ArrayToBytes(arr: seq<u32>) returns (buf: seq<byte>)
    ensures |buf| == 4 * |arr|
    ensures forall i, b :: 0 <= i < |arr| && 0 <= b < 4 ==> buf[4 * i + b] == ByteOf(arr[i], b)
    ensures buf == EncodeLE(arr)
  {
    var a := new byte[4 * |arr|];
    for i := 0 to |arr|
      invariant forall p :: 0 <= p < 4 * i ==> a[p] == ByteOf(arr[p / 4], p % 4)
    {
      var v := arr[i];
      a[4 * i] := ByteOf(v, 0);
      a[4 * i + 1] := ByteOf(v, 1);
      a[4 * i + 2] := ByteOf(v, 2);
      a[4 * i + 3] := ByteOf(v, 3);
    }
    buf := a[..];
    forall i, b | 0 <= i < |arr| && 0 <= b < 4
      ensures buf[4 * i + b] == ByteOf(arr[i], b)
    {
      var p := 4 * i + b;
      assert p / 4 == i && p % 4 == b;
    }
    forall p | 0 <= p < |buf|
      ensures buf[p] == EncodeLE(arr)[p]
    {
      EncodeLEAt(arr, p / 4, p % 4);
    }
  }

  /** `BytesToUint32Array(buf, binary.LittleEndian)`: len(buf)/4 words, trailing bytes ignored. */
  method BytesToUint32Array(buf: seq<byte>) returns (arr: seq<u32>)
    ensures |arr| == |buf| / 4
    ensures forall i :: 0 <= i < |arr| ==>
      arr[i] == WordOf(buf[4 * i], buf[4 * i + 1], buf[4 * i + 2], buf[4 * i + 3])
    ensures arr == DecodeLE(buf)
  {
    var length := |buf| / 4;
    var a := new u32[length];
    var i := 0;
    while i < length
      invariant 0 <= i <= length
      invariant forall j :: 0 <= j < i ==>
        a[j] == WordOf(buf[4 * j], buf[4 * j + 1], buf[4 * j + 2], buf[4 * j + 3])
    {
      a[i] := WordOf(buf[4 * i], buf[4 * i + 1], buf[4 * i + 2], buf[4 * i + 3]);
      i := i + 1;
    }
    arr := a[..];
    forall j | 0 <= j < length
      ensures arr[j] == DecodeLE(buf)[j]
    {
      DecodeLEAt(buf, j);
    }
  }
}
