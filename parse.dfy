/** `utils.ParseMessage`: trim the line, split it on `|`, read the type as a decimal `int`. */
module Parse {
  import opened Wrappers
  import opened GoStrings
  import opened Model

  datatype ParseError = NotMatchProtocol | CannotParseHeader

  /** `utils.ParseMessage`. The Result type makes a value and an error mutually exclusive. */
  function ParseMessage(str: string): Result<Message, ParseError>
  {
    var parts := Split(TrimSpace(str), '|');
    if !(|parts| == 1 || |parts| == 3) then Failure(NotMatchProtocol)
    else match Atoi(parts[0])
      case Parsed(t) =>
        if |parts| == 3 then Success(Message(t, parts[1], parts[2])) else Success(Message(t, "", ""))
      case _ => Failure(CannotParseHeader)
  }

  /** Leading and trailing white space of the line make no difference. */
  lemma ParseIgnoresPadding(w1: string, s: string, w2: string)
    requires AllSpace(w1) && AllSpace(w2)
    ensures ParseMessage(w1 + s + w2) == ParseMessage(s)
  {
    TrimSpaceIgnoresPadding(w1, s, w2);
  }

  /** A bare decimal line is accepted with any 64-bit type value, named or not,
      and with empty request ID and payload. */
  lemma ParseBareType(t: int)
    requires MinInt64 <= t <= MaxInt64
    ensures ParseMessage(Itoa(t) + "\n") == Success(Message(t, "", ""))
  {
    var s := Itoa(t);
    ItoaShape(t);
    TrimSpaceIgnoresPadding([], s, "\n");
    assert [] + s + "\n" == s + "\n";
    ItoaLastNotSpace(t);
    TrimSpaceKeeps(s);
    assert '|' !in s;
    SplitNoSep(s, '|');
    AtoiItoa(t);
  }

  lemma ItoaLastNotSpace(t: int)
    ensures !IsSpace(Itoa(t)[|Itoa(t)| - 1])
  {
    ItoaShape(t);
    var s := Itoa(t);
    assert s[|s| - 1] == '-' || IsDigit(s[|s| - 1]);
  }

  /** Round trip of the wire format, as `handleConnection` sends it (with a trailing newline):
      the type, request ID and payload come back when neither field holds `|`
      and the payload does not end in white space. */
  lemma ParseStringify(m: Message)
    requires MinInt64 <= m.msgType <= MaxInt64
    requires '|' !in m.requestId && '|' !in m.payload
    requires m.payload == [] || !IsSpace(m.payload[|m.payload| - 1])
    ensures ParseMessage(Stringify(m) + "\n") == Success(m)
  {
    var s := Stringify(m);
    ItoaShape(m.msgType);
    TrimSpaceIgnoresPadding([], s, "\n");
    assert [] + s + "\n" == s + "\n";
    assert s[0] == Itoa(m.msgType)[0];
    if m.payload == [] {
      assert s[|s| - 1] == '|';
    } else {
      assert s[|s| - 1] == m.payload[|m.payload| - 1];
    }
    TrimSpaceKeeps(s);
    StringifySplitsInThree(m);
    AtoiItoa(m.msgType);
  }

  /** A line whose `|`-separated fields, `Join`ed, have no white space at either end: the
      line as `ParseMessage` sees it after trimming. */
  predicate FieldsLine(fields: seq<string>)
  {
    |fields| >= 1 && (forall i :: 0 <= i < |fields| ==> '|' !in fields[i]) &&
    var line := Join(fields, '|');
    line == [] || (!IsSpace(line[0]) && !IsSpace(line[|line| - 1]))
  }

  /** Only one or three fields are allowed: a line of two, four or more fields is refused
      before its header is looked at. */
  lemma ParseRejectsFieldCount(fields: seq<string>)
    requires FieldsLine(fields) && |fields| != 1 && |fields| != 3
    ensures ParseMessage(Join(fields, '|')) == Failure(NotMatchProtocol)
  {
    TrimSpaceKeeps(Join(fields, '|'));
    SplitJoin(fields, '|');
    assert Split(TrimSpace(Join(fields, '|')), '|') == fields;
  }

  /** A header that is not a decimal 64-bit integer is refused, with one field or three. */
  lemma ParseRejectsBadHeader(fields: seq<string>)
    requires FieldsLine(fields) && (|fields| == 1 || |fields| == 3)
    requires !Atoi(fields[0]).Parsed?
    ensures ParseMessage(Join(fields, '|')) == Failure(CannotParseHeader)
  {
    TrimSpaceKeeps(Join(fields, '|'));
    SplitJoin(fields, '|');
    assert Split(TrimSpace(Join(fields, '|')), '|') == fields;
  }

  /** A decimal header with one field or three is accepted: the type, and the request ID
      and payload when there are three fields. */
  lemma ParseAcceptsFields(fields: seq<string>)
    requires FieldsLine(fields) && (|fields| == 1 || |fields| == 3)
    requires Atoi(fields[0]).Parsed?
    ensures ParseMessage(Join(fields, '|')) == Success(
      if |fields| == 3 then Message(Atoi(fields[0]).value, fields[1], fields[2])
      else Message(Atoi(fields[0]).value, "", ""))
  {
    var line := Join(fields, '|');
    TrimSpaceKeeps(line);
    SplitJoin(fields, '|');
    var parts := Split(TrimSpace(line), '|');
    assert parts == fields;
    var t := Atoi(fields[0]).value;
    assert Atoi(parts[0]) == Parsed(t);
    if |fields| == 3 {
      assert ParseMessage(line) == Success(Message(t, parts[1], parts[2]));
    } else {
      assert ParseMessage(line) == Success(Message(t, "", ""));
    }
  }
}
