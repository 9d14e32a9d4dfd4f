/** What a single character does to the parser, state by state. */
module StepLemmas {
  import opened JsonTypes
  import opened Decimal
  import opened StateMachine

  /** A space is dropped with no change at all, except inside a string value, where it is kept.
      So spaces vanish from field names and from quoted string-array elements too. */
  lemma SpaceIgnored(m: Machine)
    ensures m.state != FieldValueString ==> Step(m, ' ') == m
    ensures m.state == FieldValueString ==> Step(m, ' ') == m.(curData := m.curData + [' '])
  {
  }

  /** The characters the machine gives a meaning to in some state; every other character,
      tabs and newlines and '-' and ':' among them, is handled as ordinary text. */
  predicate Special(c: char)
  {
    c == '"' || c == ',' || c == '}' || c == '[' || c == ']' || c == ' ' || IsDigit(c)
  }

  /** An ordinary character is text in a field name, in a string value and inside the quotes of a
      string array, and is dropped everywhere else. */
  lemma OrdinaryChar(m: Machine, c: char)
    requires !Special(c)
    ensures m.state == FieldName ==> Step(m, c) == m.(curName := m.curName + [c])
    ensures m.state == FieldValueString ==> Step(m, c) == m.(curData := m.curData + [c])
    ensures m.state == ArrayString && m.inStr ==> Step(m, c) == m.(tmpValue := m.tmpValue + [c])
    ensures m.state != FieldName && m.state != FieldValueString && !(m.state == ArrayString && m.inStr)
            ==> Step(m, c) == m
  {
  }

  /** '-' is not a digit, so it never starts a number and never enters a numeric accumulator:
      outside text it leaves the machine as it is. */
  lemma MinusDropped(m: Machine)
    requires m.state != FieldName && m.state != FieldValueString && !(m.state == ArrayString && m.inStr)
    ensures Step(m, '-') == m
  {
    OrdinaryChar(m, '-');
  }

  /** The (state, character) pairs at which a field is committed. */
  predicate Commits(st: State, c: char)
  {
    (st == FieldValueString && c == '"') ||
    (st == FieldValueNumber && (c == ',' || c == '}')) ||
    ((st == ArrayString || st == ArrayNumber) && c == ']')
  }

  /** The payload committed in state st: the string value, the converted number, or the element
      list with the element in progress added. */
  function Committed(m: Machine): Payload
  {
    match m.state
    case FieldValueNumber => Num(Value(m.curData))
    case ArrayString => StrArr(m.arrStr + [m.tmpValue])
    case ArrayNumber => NumArr(m.arrNum + [Value(m.tmpValue)])
    case _ => Str(m.curData)
  }

  /** A field is committed exactly at the commit points; the commit appends exactly the current
      field, with its tag and payload, and returns to BetweenFields. Every other step leaves the
      store as it was. */
  lemma CommitPoints(m: Machine, c: char)
    ensures |Step(m, c).fields| == |m.fields| + 1 <==> Commits(m.state, c)
    ensures Commits(m.state, c) ==>
              Step(m, c).fields == m.fields + [Field(m.curName, m.curType, Committed(m))] &&
              Step(m, c).state == BetweenFields
    ensures !Commits(m.state, c) ==> Step(m, c).fields == m.fields
  {
  }

  /** Inside a string array: ',' always closes the element, even between quotes, and keeps the
      in-quotes flag; '"' toggles the flag; any other character but ']' and ' ' is added only while
      the flag is set. */
  lemma StringArrayStep(m: Machine, c: char)
    requires m.state == ArrayString
    ensures c == ',' ==> Step(m, c) == m.(arrStr := m.arrStr + [m.tmpValue], tmpValue := [])
    ensures c == '"' ==> Step(m, c) == m.(inStr := !m.inStr)
    ensures c != ',' && c != '"' && c != ']' && c != ' ' ==>
              Step(m, c) == if m.inStr then m.(tmpValue := m.tmpValue + [c]) else m
  {
  }

  /** Inside a number array: ',' closes the element with its converted value, a digit is added
      to the element, and every other character but ']' is dropped. */
  lemma NumberArrayStep(m: Machine, c: char)
    requires m.state == ArrayNumber
    ensures c == ',' ==> Step(m, c) == m.(arrNum := m.arrNum + [Value(m.tmpValue)], tmpValue := [])
    ensures c != ',' && c != ']' ==>
              Step(m, c) == if IsDigit(c) then m.(tmpValue := m.tmpValue + [c]) else m
  {
  }

  /** Between fields only '"' matters; just after '[' only '"' and a digit matter, so a ']' there
      is dropped and an empty array commits nothing. */
  lemma Ignored(m: Machine, c: char)
    ensures m.state == BetweenFields && c != '"' ==> Step(m, c) == m
    ensures m.state == ArrayStart && c != '"' && !IsDigit(c) ==> Step(m, c) == m
    ensures m.state == BetweenFieldNameValue && c != '"' && c != '[' && !IsDigit(c) ==> Step(m, c) == m
  {
  }
}
