/** The pieces of Go's `strings` and `strconv` packages that the message
    codec and the hashcash client and server build on: `strings.TrimSpace`,
    `strings.Split` with a one-character separator, `strings.HasPrefix`,
    `strings.Repeat`, `strconv.Itoa` / `%d` and `strconv.Atoi` (64-bit `int`). */
module GoStrings {

  // ----- TrimSpace -----

  /** `unicode.IsSpace`: the Latin-1 spaces and the other White_Space code points. */
  predicate IsSpace(c: char)
  {
    c == '\t' || c == '\n' || c == '\U{000B}' || c == '\U{000C}' || c == '\r' || c == ' ' ||
    c == '\U{0085}' || c == '\U{00A0}' || c == '\U{1680}' || ('\U{2000}' <= c <= '\U{200A}') ||
    c == '\U{2028}' || c == '\U{2029}' || c == '\U{202F}' || c == '\U{205F}' || c == '\U{3000}'
  }

  predicate AllSpace(s: string)
  {
    forall i :: 0 <= i < |s| ==> IsSpace(s[i])
  }

  function TrimLeft(s: string): string
  {
    if s != [] && IsSpace(s[0]) then TrimLeft(s[1..]) else s
  }

  function TrimRight(s: string): string
  {
    if s != [] && IsSpace(s[|s| - 1]) then TrimRight(s[..|s| - 1]) else s
  }

  /** `strings.TrimSpace`. */
  function TrimSpace(s: string): string
  {
    TrimRight(TrimLeft(s))
  }

  lemma {:induction false} TrimLeftSpaces(w: string, s: string)
    requires AllSpace(w)
    ensures TrimLeft(w + s) == TrimLeft(s)
  {
    if w != [] {
      assert (w + s)[0] == w[0] && IsSpace(w[0]);
      assert (w + s)[1..] == w[1..] + s;
      assert TrimLeft(w + s) == TrimLeft(w[1..] + s);
      TrimLeftSpaces(w[1..], s);
    } else {
      assert w + s == s;
    }
  }

  lemma {:induction false} TrimRightSpaces(s: string, w: string)
    requires AllSpace(w)
    ensures TrimRight(s + w) == TrimRight(s)
    decreases |w|
  {
    if w != [] {
      assert (s + w)[|s + w| - 1] == w[|w| - 1] && IsSpace(w[|w| - 1]);
      assert (s + w)[..|s + w| - 1] == s + w[..|w| - 1];
      assert TrimRight(s + w) == TrimRight(s + w[..|w| - 1]);
      TrimRightSpaces(s, w[..|w| - 1]);
    } else {
      assert s + w == s;
    }
  }

  /** Trailing spaces survive TrimLeft unless everything before them is space too. */
  lemma {:induction false} TrimLeftThenSpaces(s: string, w: string)
    requires AllSpace(w)
    ensures TrimRight(TrimLeft(s + w)) == TrimRight(TrimLeft(s))
  {
    if s == [] {
      assert s + w == w;
      TrimLeftSpaces(w, []);
      assert w + [] == w;
    } else if IsSpace(s[0]) {
      assert (s + w)[1..] == s[1..] + w;
      TrimLeftThenSpaces(s[1..], w);
    } else {
      TrimRightSpaces(s, w);
    }
  }

  /** Leading and trailing white space make no difference to TrimSpace. */
  lemma TrimSpaceIgnoresPadding(w1: string, s: string, w2: string)
    requires AllSpace(w1) && AllSpace(w2)
    ensures TrimSpace(w1 + s + w2) == TrimSpace(s)
  {
    assert w1 + s + w2 == w1 + (s + w2);
    TrimLeftSpaces(w1, s + w2);
    TrimLeftThenSpaces(s, w2);
  }

  /** A string that neither starts nor ends with a space is its own trimming. */
  lemma TrimSpaceKeeps(s: string)
    requires s == [] || (!IsSpace(s[0]) && !IsSpace(s[|s| - 1]))
    ensures TrimSpace(s) == s
  {
  }

  // ----- Split -----

  /** `strings.Split(s, string(sep))`: the pieces between the occurrences of sep. */
  function Split(s: string, sep: char): (parts: seq<string>)
    ensures |parts| >= 1
  {
    if s == [] then [[]]
    else
      var rest := Split(s[1..], sep);
      if s[0] == sep then [[]] + rest else [[s[0]] + rest[0]] + rest[1..]
  }

  function Join(parts: seq<string>, sep: char): string
    requires |parts| >= 1
  {
    if |parts| == 1 then parts[0] else parts[0] + [sep] + Join(parts[1..], sep)
  }

  /** Joining two word lists one after the other puts one more separator between them. */
  lemma {:induction false} JoinAppend(a: seq<string>, b: seq<string>, sep: char)
    requires |a| >= 1 && |b| >= 1
    ensures Join(a + b, sep) == Join(a, sep) + [sep] + Join(b, sep)
    decreases |a|
  {
    assert (a + b)[0] == a[0];
    if |a| > 1 {
      assert (a + b)[1..] == a[1..] + b;
      JoinAppend(a[1..], b, sep);
    } else {
      assert (a + b)[1..] == b;
    }
  }

  function Count(s: string, c: char): nat
  {
    if s == [] then 0 else (if s[0] == c then 1 else 0) + Count(s[1..], c)
  }

  /** Split yields one more piece than there are separators, none of them holding one,
      and joining the pieces gives s back. */
  lemma {:induction false} SplitShape(s: string, sep: char)
    ensures |Split(s, sep)| == Count(s, sep) + 1
    ensures forall i :: 0 <= i < |Split(s, sep)| ==> sep !in Split(s, sep)[i]
    ensures Join(Split(s, sep), sep) == s
  {
    if s != [] {
      SplitShape(s[1..], sep);
      var rest := Split(s[1..], sep);
      if s[0] != sep {
        var parts := Split(s, sep);
        assert parts[0] == [s[0]] + rest[0];
        assert parts[1..] == rest[1..];
        if |rest| == 1 {
          assert Join(parts, sep) == [s[0]] + rest[0];
        } else {
          assert Join(rest, sep) == rest[0] + [sep] + Join(rest[1..], sep);
        }
        assert s == [s[0]] + s[1..];
      } else {
        assert s == [sep] + s[1..];
      }
    }
  }

  lemma {:induction false} SplitNoSep(s: string, sep: char)
    requires sep !in s
    ensures Split(s, sep) == [s]
  {
    if s != [] {
      assert s[0] != sep && s == [s[0]] + s[1..];
      SplitNoSep(s[1..], sep);
    }
  }

  lemma {:induction false} SplitAfterPiece(a: string, sep: char, b: string)
    requires sep !in a
    ensures Split(a + [sep] + b, sep) == [a] + Split(b, sep)
  {
    if a != [] {
      assert (a + [sep] + b)[0] == a[0] != sep;
      assert (a + [sep] + b)[1..] == a[1..] + [sep] + b;
      assert a == [a[0]] + a[1..];
      SplitAfterPiece(a[1..], sep, b);
    } else {
      assert a + [sep] + b == [sep] + b;
      assert ([sep] + b)[1..] == b;
    }
  }

  /** Separator-free words joined by sep, followed by sep and a rest, split into those words
      followed by the pieces of the rest. */
  lemma {:induction false} SplitJoinedWords(words: seq<string>, sep: char, rest: string)
    requires |words| >= 1
    requires forall i :: 0 <= i < |words| ==> sep !in words[i]
    ensures Split(Join(words, sep) + [sep] + rest, sep) == words + Split(rest, sep)
    decreases |words|
  {
    if |words| == 1 {
      SplitAfterPiece(words[0], sep, rest);
    } else {
      var tail := Join(words[1..], sep) + [sep] + rest;
      assert Join(words, sep) + [sep] + rest == words[0] + [sep] + tail;
      SplitAfterPiece(words[0], sep, tail);
      SplitJoinedWords(words[1..], sep, rest);
      assert words == [words[0]] + words[1..];
    }
  }

  /** Separator-free pieces joined by sep split back into exactly those pieces. */
  lemma {:induction false} SplitJoin(words: seq<string>, sep: char)
    requires |words| >= 1
    requires forall i :: 0 <= i < |words| ==> sep !in words[i]
    ensures Split(Join(words, sep), sep) == words
    decreases |words|
  {
    if |words| == 1 {
      SplitNoSep(words[0], sep);
    } else {
      SplitAfterPiece(words[0], sep, Join(words[1..], sep));
      SplitJoin(words[1..], sep);
      assert words == [words[0]] + words[1..];
    }
  }

  /** Three separator-free pieces joined by sep split back into exactly those three. */
  lemma SplitThree(a: string, b: string, c: string, sep: char)
    requires sep !in a && sep !in b && sep !in c
    ensures Split(a + [sep] + b + [sep] + c, sep) == [a, b, c]
  {
    assert a + [sep] + b + [sep] + c == a + [sep] + (b + [sep] + c);
    SplitAfterPiece(a, sep, b + [sep] + c);
    SplitAfterPiece(b, sep, c);
    SplitNoSep(c, sep);
  }

  // ----- HasPrefix, Repeat -----

  /** `strings.HasPrefix`. */
  predicate HasPrefix(s: string, prefix: string)
  {
    |prefix| <= |s| && s[..|prefix|] == prefix
  }

  /** `strings.Repeat(string(c), count)`; Go panics on a negative count. */
  function Repeat(c: char, count: nat): (r: string)
    ensures |r| == count && forall i :: 0 <= i < count ==> r[i] == c
  {
    if count == 0 then [] else Repeat(c, count - 1) + [c]
  }

  // ----- Itoa and Atoi -----

  const MaxInt64: int := 0x7FFF_FFFF_FFFF_FFFF
  const MinInt64: int := -0x8000_0000_0000_0000
  const MaxUint64: int := 0xFFFF_FFFF_FFFF_FFFF

  predicate IsDigit(c: char)
  {
    '0' <= c <= '9'
  }

  function DigitValue(c: char): nat
    requires IsDigit(c)
  {
    c as int - '0' as int
  }

  function DigitChar(d: nat): (c: char)
    requires d < 10
    ensures IsDigit(c) && DigitValue(c) == d
  {
    ('0' as int + d) as char
  }

  /** The decimal digits of n, with no leading zero. */
  function NatDigits(n: nat): (s: string)
    ensures |s| >= 1
    decreases n
  {
    if n < 10 then [DigitChar(n)] else NatDigits(n / 10) + [DigitChar(n % 10)]
  }

  /** `strconv.Itoa(x)`, which is what `%d` prints. */
  function Itoa(x: int): string
  {
    if x < 0 then "-" + NatDigits(-x) else NatDigits(x)
  }

  predicate AllDigits(s: string)
  {
    forall i :: 0 <= i < |s| ==> IsDigit(s[i])
  }

  /** The value of a digit string, read left to right. */
  function DigitsValue(s: string): nat
    requires AllDigits(s)
  {
    if s == [] then 0 else 10 * DigitsValue(s[..|s| - 1]) + DigitValue(s[|s| - 1])
  }

  datatype Scan = Digits(value: nat) | NotADigit | TooLarge

  /** `strconv.ParseUint(s, 10, 64)`'s digit loop: it stops at the first character that is
      not a digit or at the first digit that takes the running value past 2^64 - 1,
      whichever comes first. */
  function ScanDigits(s: string, acc: nat): Scan
  {
    if s == [] then Digits(acc)
    else if !IsDigit(s[0]) then NotADigit
    else if 10 * acc + DigitValue(s[0]) > MaxUint64 then TooLarge
    else ScanDigits(s[1..], 10 * acc + DigitValue(s[0]))
  }

  datatype AtoiResult = Parsed(value: int) | SyntaxError | RangeError(clamped: int)

  /** `strconv.Atoi` on a 64-bit platform. On a range error Go also returns the clamped value. */
  function Atoi(s: string): AtoiResult
  {
    if s == [] then SyntaxError
    else
      var neg := s[0] == '-';
      var body := if s[0] == '-' || s[0] == '+' then s[1..] else s;
      if body == [] then SyntaxError
      else match ScanDigits(body, 0)
        case NotADigit => SyntaxError
        case TooLarge => RangeError(if neg then MinInt64 else MaxInt64)
        case Digits(u) =>
          if !neg && u > MaxInt64 then RangeError(MaxInt64)
          else if neg && u > -MinInt64 then RangeError(MinInt64)
          else var v: int := u; Parsed(if neg then -v else v)
  }

  /** The value Go's `strconv.Atoi` returns beside its error: 0 on a syntax error. */
  function AtoiValue(s: string): int
  {
    match Atoi(s)
    case Parsed(v) => v
    case SyntaxError => 0
    case RangeError(v) => v
  }

  lemma {:induction false} NatDigitsValue(n: nat)
    ensures AllDigits(NatDigits(n)) && DigitsValue(NatDigits(n)) == n
    decreases n
  {
    if n >= 10 {
      NatDigitsValue(n / 10);
      var s := NatDigits(n);
      assert s[..|s| - 1] == NatDigits(n / 10);
    }
  }

  /** Scanning a digit string after acc gives 10^|s| * acc + its value, as long as no
      running value exceeds 2^64 - 1; the running values only grow, so the last one decides. */
  lemma {:induction false} ScanAllDigits(s: string, acc: nat)
    requires AllDigits(s)
    requires Shifted(acc, s) <= MaxUint64
    ensures ScanDigits(s, acc) == Digits(Shifted(acc, s))
  {
    if s != [] {
      var next := 10 * acc + DigitValue(s[0]);
      ShiftedGrows(next, s[1..]);
      ScanAllDigits(s[1..], next);
    }
  }

  /** The running value after reading s on top of acc. */
  function Shifted(acc: nat, s: string): nat
    requires AllDigits(s)
    decreases |s|
  {
    if s == [] then acc else Shifted(10 * acc + DigitValue(s[0]), s[1..])
  }

  lemma {:induction false} ShiftedGrows(acc: nat, s: string)
    requires AllDigits(s)
    ensures Shifted(acc, s) >= acc
    decreases |s|
  {
    if s != [] {
      ShiftedGrows(10 * acc + DigitValue(s[0]), s[1..]);
    }
  }

  /** Reading left to right from 0 gives the value of the digit string. */
  lemma {:induction false} ShiftedValue(s: string)
    requires AllDigits(s)
    ensures Shifted(0, s) == DigitsValue(s)
    decreases |s|
  {
    if s != [] {
      var init := s[..|s| - 1];
      var last := s[|s| - 1];
      ShiftedSnoc(0, init, last);
      assert init + [last] == s;
      ShiftedValue(init);
    }
  }

  lemma {:induction false} ShiftedSnoc(acc: nat, s: string, c: char)
    requires AllDigits(s) && IsDigit(c)
    ensures AllDigits(s + [c]) && Shifted(acc, s + [c]) == 10 * Shifted(acc, s) + DigitValue(c)
    decreases |s|
  {
    if s != [] {
      assert (s + [c])[1..] == s[1..] + [c];
      ShiftedSnoc(10 * acc + DigitValue(s[0]), s[1..], c);
    }
  }

  /** Atoi reads back what Itoa prints, for every 64-bit int. */
  lemma AtoiItoa(x: int)
    requires MinInt64 <= x <= MaxInt64
    ensures Atoi(Itoa(x)) == Parsed(x)
  {
    var n: nat := if x < 0 then -x else x;
    var ds := NatDigits(n);
    NatDigitsValue(n);
    ShiftedValue(ds);
    ScanAllDigits(ds, 0);
    if x < 0 {
      assert Itoa(x) == "-" + ds;
      assert Itoa(x)[1..] == ds;
    } else {
      assert ds[0] != '-' && ds[0] != '+';
    }
  }

  /** Itoa never starts with white space and never holds the separator or a space. */
  lemma ItoaShape(x: int)
    ensures |Itoa(x)| >= 1 && !IsSpace(Itoa(x)[0])
    ensures forall i :: 0 <= i < |Itoa(x)| ==> Itoa(x)[i] == '-' || IsDigit(Itoa(x)[i])
  {
    var n: nat := if x < 0 then -x else x;
    NatDigitsValue(n);
  }
}
