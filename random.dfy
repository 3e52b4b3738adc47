/** Random alphanumeric strings (`utils.GetRandomString` and the legacy `generateChallenge`).
    The `rand.Intn(62)` draws are passed in as a sequence of picks; the model fixes only
    what the code does with them. */
module Random {
  /** `count` consecutive code points from `first` on. */
  function Run(first: char, count: nat): (r: string)
    requires first as int + count <= 0xD800
    ensures |r| == count
    ensures forall i :: 0 <= i < count ==> r[i] as int == first as int + i
  {
    seq(count, i requires 0 <= i < count => (first as int + i) as char)
  }

  /** The 62-letter alphabet both generators index into: `a`..`z`, `A`..`Z`, `0`..`9`. */
  const Letters: string := Run('a', 26) + Run('A', 26) + Run('0', 10)

  /** Each pick is a possible result of `rand.Intn(len(letters))`. */
  predicate ValidPicks(picks: seq<int>)
  {
    forall i :: 0 <= i < |picks| ==> 0 <= picks[i] < |Letters|
  }

  /** The string spelled by a sequence of picks. */
  function Spell(picks: seq<int>): (s: string)
    requires ValidPicks(picks)
    ensures |s| == |picks|
  {
    seq(|picks|, i requires 0 <= i < |picks| => Letters[picks[i]])
  }

  /** No generated string holds a space, a `|` or a newline: the wire format and the
      legacy prompt both rely on this. */
  lemma SpellSeparatorFree(picks: seq<int>)
    requires ValidPicks(picks)
    ensures forall i :: 0 <= i < |Spell(picks)| ==> Spell(picks)[i] in Letters
    ensures ' ' !in Spell(picks) && '|' !in Spell(picks) && '\n' !in Spell(picks)
  {
    assert forall i :: 0 <= i < |Letters| ==> '0' <= Letters[i] <= 'z' && Letters[i] != '|';
  }

  /** Every string over the alphabet is spelled by some picks: the generators can produce
      any of them. */
  lemma {:induction false} SpellOnto(s: string)
    requires forall i :: 0 <= i < |s| ==> s[i] in Letters
    ensures exists picks :: ValidPicks(picks) && Spell(picks) == s
  {
    if s == [] {
      assert ValidPicks([]) && Spell([]) == s;
    } else {
      SpellOnto(s[1..]);
      var rest :| ValidPicks(rest) && Spell(rest) == s[1..];
      var p :| 0 <= p < |Letters| && Letters[p] == s[0];
      var picks := [p] + rest;
      assert ValidPicks(picks);
      assert Spell(picks) == s;
    }
  }

  /** The shared generator loop: a fresh rune buffer filled one pick at a time. */
  method RandomString(picks: seq<int>) returns (s: string)
    requires ValidPicks(picks)
    ensures s == Spell(picks)
  {
    var res := new char[|picks|];
    for i := 0 to |picks|
      invariant forall j :: 0 <= j < i ==> res[j] == Letters[picks[j]]
    {
      res[i] := Letters[picks[i]];
    }
    s := res[..];
  }
}
