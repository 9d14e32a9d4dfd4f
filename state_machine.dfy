/** The parser's whole state as a value, the effect of one input character on it (addChar),
    and the fold of that step over a stream of characters. */
module StateMachine {
  import opened JsonTypes
  import opened Decimal

  /** Everything addChar reads or writes: the state, the field store, the field under construction
      (its name, its type tag and the String its data points to while a scalar is read), the
      array element accumulator, the element lists of the two array kinds and the in-quotes flag. */
  datatype Machine = Machine(
    state: State,
    fields: seq<Field>,
    curName: string,
    curType: JsonType,
    curData: string,
    tmpValue: string,
    arrStr: seq<string>,
    arrNum: seq<int>,
    inStr: bool)

  /** The commit of one field: the store grows by that field and the machine is between fields. */
  function Commit(m: Machine, p: Payload): (r: Machine)
    ensures r.fields == m.fields + [Field(m.curName, m.curType, p)]
    ensures r.state == BetweenFields
  {
    m.(fields := m.fields + [Field(m.curName, m.curType, p)], state := BetweenFields)
  }

  /** A freshly constructed parser. The type tag of the (absent) current field is
      indeterminate in the source; it is given JsonString here and never read before it is set. */
  function Init(): (m: Machine)
    ensures m.state == BetweenFields && m.fields == []
    ensures !m.inStr
  {
    Machine(BetweenFields, [], [], JsonString, [], [], [], [], false)
  }

  /** addChar: the effect of one character. */
  function Step(m: Machine, c: char): (r: Machine)
    ensures m.fields <= r.fields
    ensures |r.fields| <= |m.fields| + 1
  {
    if c == ' ' && m.state != FieldValueString then m
    else
      match m.state
      case BetweenFields =>
        if c == '"' then m.(curName := [], curData := [], state := FieldName) else m
      case FieldName =>
        if c == '"' then m.(state := BetweenFieldNameValue) else m.(curName := m.curName + [c])
      case BetweenFieldNameValue =>
        if c == '"' then m.(curType := JsonString, curData := [], state := FieldValueString)
        else if IsDigit(c) then m.(curType := JsonNumber, curData := [c], state := FieldValueNumber)
        else if c == '[' then m.(state := ArrayStart)
        else m
      case FieldValueString =>
        if c == '"' then Commit(m, Str(m.curData))
        else m.(curData := m.curData + [c])
      case FieldValueNumber =>
        if c == ',' || c == '}' then Commit(m, Num(Value(m.curData)))
        else if IsDigit(c) then m.(curData := m.curData + [c])
        else m
      case ArrayStart =>
        if c == '"' then
          m.(state := ArrayString, curType := JsonStringArray, tmpValue := [], arrStr := [], inStr := true)
        else if IsDigit(c) then
          m.(state := ArrayNumber, curType := JsonNumberArray, tmpValue := [c], arrNum := [])
        else m
      case ArrayString =>
        if c == ',' then m.(arrStr := m.arrStr + [m.tmpValue], tmpValue := [])
        else if c == ']' then
          Commit(m.(arrStr := m.arrStr + [m.tmpValue]), StrArr(m.arrStr + [m.tmpValue]))
        else if c != '"' && m.inStr then m.(tmpValue := m.tmpValue + [c])
        else if c == '"' then m.(inStr := !m.inStr)
        else m
      case ArrayNumber =>
        if c == ',' then m.(arrNum := m.arrNum + [Value(m.tmpValue)], tmpValue := [])
        else if c == ']' then
          Commit(m.(arrNum := m.arrNum + [Value(m.tmpValue)]), NumArr(m.arrNum + [Value(m.tmpValue)]))
        else if IsDigit(c) then m.(tmpValue := m.tmpValue + [c])
        else m
  }

  /** The machine after reading the characters of s one at a time, in order. */
  function Parse(m: Machine, s: string): (r: Machine)
    ensures m.fields <= r.fields
    ensures |r.fields| <= |m.fields| + |s|
  {
    if s == [] then m else Step(Parse(m, s[..|s| - 1]), s[|s| - 1])
  }

  /** Feeding s and then t is feeding s + t: the parser does not care how the stream is chunked. */
  lemma {:induction false} ParseAppend(m: Machine, s: string, t: string)
    ensures Parse(m, s + t) == Parse(Parse(m, s), t)
  {
    if t == [] {
      assert s + t == s;
    } else {
      var t' := t[..|t| - 1];
      assert (s + t)[..|s + t| - 1] == s + t';
      assert (s + t)[|s + t| - 1] == t[|t| - 1];
      ParseAppend(m, s, t');
    }
  }

  /** Feeding one more character is one more step. */
  lemma ParseSnoc(m: Machine, s: string, c: char)
    ensures Parse(m, s + [c]) == Step(Parse(m, s), c)
  {
    assert (s + [c])[..|s|] == s;
  }

  /** Feeding one character is one step. */
  lemma ParseOne(m: Machine, c: char)
    ensures Parse(m, [c]) == Step(m, c)
  {
    ParseSnoc(m, [], c);
    assert [] + [c] == [c];
  }

  // ---------------------------------------------------------------------------------------------
  // The invariant every reachable machine keeps.

  /** A string-array element holds no space, no quote, no comma and no ']'. */
  predicate ElementText(e: string)
  {
    ' ' !in e && '"' !in e && ',' !in e && ']' !in e
  }

  /** A committed field: its tag matches its payload, its name has no space and no quote, a string
      has no quote, a number is non-negative, and an array has at least one element, each of the
      admissible kind. */
  predicate GoodField(f: Field)
  {
    f.fieldType == KindOf(f.data) && ' ' !in f.name && '"' !in f.name &&
    match f.data
    case Str(s) => '"' !in s
    case Num(n) => n >= 0
    case StrArr(a) => |a| >= 1 && forall k :: 0 <= k < |a| ==> ElementText(a[k])
    case NumArr(a) => |a| >= 1 && forall k :: 0 <= k < |a| ==> a[k] >= 0
  }

  /** The invariant: every committed field is good, the current name has no space and no quote,
      and in each value state the type tag is set and what is accumulated has the admissible form. */
  predicate Valid(m: Machine)
  {
    (forall k :: 0 <= k < |m.fields| ==> GoodField(m.fields[k])) &&
    ' ' !in m.curName && '"' !in m.curName &&
    (m.state == FieldValueString ==> m.curType == JsonString && '"' !in m.curData) &&
    (m.state == FieldValueNumber ==> m.curType == JsonNumber && AllDigits(m.curData)) &&
    (m.state == ArrayString ==>
       m.curType == JsonStringArray && ElementText(m.tmpValue) &&
       forall k :: 0 <= k < |m.arrStr| ==> ElementText(m.arrStr[k])) &&
    (m.state == ArrayNumber ==>
       m.curType == JsonNumberArray && AllDigits(m.tmpValue) &&
       forall k :: 0 <= k < |m.arrNum| ==> m.arrNum[k] >= 0)
  }

  /** A new parser satisfies the invariant. */
  lemma InitValid()
    ensures Valid(Init())
  {
  }

  /** Appending a good field to a store of good fields keeps the store good. */
  lemma CommitGood(m: Machine, p: Payload)
    requires forall k :: 0 <= k < |m.fields| ==> GoodField(m.fields[k])
    requires GoodField(Field(m.curName, m.curType, p))
    ensures forall k :: 0 <= k < |Commit(m, p).fields| ==> GoodField(Commit(m, p).fields[k])
  {
  }

  /** The invariant is kept while a string value is read and when it is committed. */
  lemma StringValueValid(m: Machine, c: char)
    requires Valid(m) && m.state == FieldValueString
    ensures Valid(Step(m, c))
  {
    if c == '"' {
      CommitGood(m, Str(m.curData));
    }
  }

  /** The invariant is kept while a number value is read and when it is committed. */
  lemma NumberValueValid(m: Machine, c: char)
    requires Valid(m) && m.state == FieldValueNumber && c != ' '
    ensures Valid(Step(m, c))
  {
    if c == ',' || c == '}' {
      ConvertedDigits(m.curData);
      CommitGood(m, Num(Value(m.curData)));
    } else if IsDigit(c) {
      assert AllDigits(m.curData + [c]);
    }
  }

  /** The invariant is kept while a string array is read and when it is committed. */
  lemma StringArrayValid(m: Machine, c: char)
    requires Valid(m) && m.state == ArrayString && c != ' '
    ensures Valid(Step(m, c))
  {
    var elems := m.arrStr + [m.tmpValue];
    if c == ',' {
      assert forall k :: 0 <= k < |elems| ==> ElementText(elems[k]);
    } else if c == ']' {
      assert forall k :: 0 <= k < |elems| ==> ElementText(elems[k]);
      CommitGood(m.(arrStr := elems), StrArr(elems));
    }
  }

  /** The invariant is kept while a number array is read and when it is committed. */
  lemma NumberArrayValid(m: Machine, c: char)
    requires Valid(m) && m.state == ArrayNumber && c != ' '
    ensures Valid(Step(m, c))
  {
    ConvertedDigits(m.tmpValue);
    var elems := m.arrNum + [Value(m.tmpValue)];
    if c == ',' {
      assert forall k :: 0 <= k < |elems| ==> elems[k] >= 0;
    } else if c == ']' {
      assert forall k :: 0 <= k < |elems| ==> elems[k] >= 0;
      CommitGood(m.(arrNum := elems), NumArr(elems));
    } else if IsDigit(c) {
      assert AllDigits(m.tmpValue + [c]);
    }
  }

  /** Every character keeps the invariant. */
  lemma StepValid(m: Machine, c: char)
    requires Valid(m)
    ensures Valid(Step(m, c))
  {
    if c == ' ' && m.state != FieldValueString {
      return;
    }
    match m.state
    case BetweenFields =>
    case FieldName =>
    case BetweenFieldNameValue =>
    case FieldValueString => StringValueValid(m, c);
    case FieldValueNumber => NumberValueValid(m, c);
    case ArrayStart =>
    case ArrayString => StringArrayValid(m, c);
    case ArrayNumber => NumberArrayValid(m, c);
  }

  /** Every machine reached from a new parser satisfies the invariant; in particular every
      committed number and number-array element is non-negative and no array is empty. */
  lemma {:induction false} ParseValid(m: Machine, s: string)
    requires Valid(m)
    ensures Valid(Parse(m, s))
  {
    if s != [] {
      ParseValid(m, s[..|s| - 1]);
      StepValid(Parse(m, s[..|s| - 1]), s[|s| - 1]);
    }
  }
}
