/** The parser on concrete inputs, fed to any parser that is between fields (a new parser included). */
module Examples {
  import opened JsonTypes
  import opened Text
  import opened Decimal
  import opened StateMachine
  import opened StepLemmas
  import opened Streams

  lemma FortyTwo()
    ensures Horner(DigitsOf("42")) == 42
  {
    OneDigit('4');
    DigitsOfSnoc("4", '2');
    assert "4" + ['2'] == "42";
    assert "42"[..1] == "4";
  }

  /** The literal input of NumberExample, cut into the pieces NumberField reads. */
  lemma NumberInput()
    ensures "\"x\":42," == ['"'] + "x" + ['"'] + ":" + (['4'] + "2" + [','])
    ensures ['4'] + "2" == "42"
  {
  }

  /** "x":42, gives one number field x = 42. */
  lemma NumberExample(m: Machine)
    requires m.state == BetweenFields
    ensures Parse(m, "\"x\":42,").fields == m.fields + [Field("x", JsonNumber, Num(42))]
  {
    var s := ['"'] + "x" + ['"'] + ":" + (['4'] + "2" + [',']);
    NumberInput();
    assert Parse(m, s).fields == m.fields + [Field("x", JsonNumber, Num(42))] by {
      DropSpacesKeeps("x");
      FortyTwo();
      NumberField(m, "x", ":", '4', "2", ',');
    }
  }

  /** The literal input of MinusExample, cut into the pieces NumberField reads. */
  lemma MinusInput()
    ensures "\"x\":-7}" == ['"'] + "x" + ['"'] + ":-" + (['7'] + [] + ['}'])
    ensures ['7'] + [] == "7"
    ensures Gap(":-")
  {
  }

  /** "x":-7} gives x = 7: the '-' is dropped, there are no negative numbers. */
  lemma MinusExample(m: Machine)
    requires m.state == BetweenFields
    ensures Parse(m, "\"x\":-7}").fields == m.fields + [Field("x", JsonNumber, Num(7))]
  {
    var s := ['"'] + "x" + ['"'] + ":-" + (['7'] + [] + ['}']);
    MinusInput();
    assert Parse(m, s).fields == m.fields + [Field("x", JsonNumber, Num(7))] by {
      DropSpacesKeeps("x");
      OneDigit('7');
      NumberField(m, "x", ":-", '7', [], '}');
      assert Horner(DigitsOf(['7'] + [])) == 7;
    }
  }

  /** The literal input of StringExample, cut into the pieces StringField reads. */
  lemma StringInput()
    ensures "\"name\":\"ab c\"" == ['"'] + "name" + ['"'] + ":" + (['"'] + "ab c" + ['"'])
  {
  }

  /** "name":"ab c" gives one string field, the space kept. */
  lemma StringExample(m: Machine)
    requires m.state == BetweenFields
    ensures Parse(m, "\"name\":\"ab c\"").fields == m.fields + [Field("name", JsonString, Str("ab c"))]
  {
    var s := ['"'] + "name" + ['"'] + ":" + (['"'] + "ab c" + ['"']);
    StringInput();
    assert Parse(m, s).fields == m.fields + [Field("name", JsonString, Str("ab c"))] by {
      DropSpacesKeeps("name");
      StringField(m, "name", ":", "ab c");
    }
  }

  /** "a":[] commits nothing: the parser is left just after '['. */
  lemma EmptyArrayExample(m: Machine)
    requires m.state == BetweenFields
    ensures Parse(m, "\"a\":[]").fields == m.fields
    ensures Parse(m, "\"a\":[]").state == ArrayStart
  {
    var head := ['"'] + "a" + ['"'] + ":";
    var s := head + (['['] + "]");
    assert "\"a\":[]" == s;
    assert Parse(m, s) == Parse(m, head).(state := ArrayStart) by {
      NameAndGap(m, "a", ":");
      ParseAppend(m, head, ['['] + "]");
      EmptyArray(Parse(m, head), "]");
    }
    assert Parse(m, head).fields == m.fields by {
      NameAndGap(m, "a", ":");
    }
  }

  /** "a":[],"b":1} commits nothing at all: after the empty array the quote of "b" opens a string
      array, which the rest of the input never closes. */
  lemma EmptyArrayThenField(m: Machine)
    requires m.state == BetweenFields
    ensures Parse(m, "\"a\":[],\"b\":1}").fields == m.fields
    ensures Parse(m, "\"a\":[],\"b\":1}").state == ArrayString
  {
    var first, rest := "\"a\":[]", [','] + (['"'] + "b\":1}");
    assert "\"a\":[],\"b\":1}" == first + rest;
    assert ']' !in "b\":1}";
    EmptyArrayExample(m);
    ParseAppend(m, first, rest);
    AfterEmptyArray(Parse(m, first), [','], "b\":1}");
  }

  /** The pieces of d1,d2,d3. */
  lemma SplitThreeDigits(d1: char, d2: char, d3: char)
    requires IsDigit(d1) && IsDigit(d2) && IsDigit(d3)
    ensures Split([d1, ',', d2, ',', d3], ',') == [[d1], [d2], [d3]]
  {
    SplitOne(d1, ','); SplitOne(d2, ','); SplitOne(d3, ',');
    SplitConcat([d1], [d2], ',');
    assert [d1] + [','] + [d2] == [d1, ',', d2];
    SplitConcat([d1, ',', d2], [d3], ',');
    assert [d1, ',', d2] + [','] + [d3] == [d1, ',', d2, ',', d3];
  }

  /** The values of three one-digit pieces. */
  lemma ValuesThreeDigits(d1: char, d2: char, d3: char)
    requires IsDigit(d1) && IsDigit(d2) && IsDigit(d3)
    ensures Values([[d1], [d2], [d3]]) == [CharToInt(d1), CharToInt(d2), CharToInt(d3)]
  {
    OneDigit(d1); OneDigit(d2); OneDigit(d3);
    var ps := [[d1], [d2], [d3]];
    ValuesAt(ps);
    assert ps[0] == [d1] && ps[1] == [d2] && ps[2] == [d3];
  }

  lemma ThreeDigitValues(d1: char, d2: char, d3: char)
    requires IsDigit(d1) && IsDigit(d2) && IsDigit(d3)
    ensures Values(Split([d1] + [',', d2, ',', d3], ',')) == [CharToInt(d1), CharToInt(d2), CharToInt(d3)]
  {
    assert [d1] + [',', d2, ',', d3] == [d1, ',', d2, ',', d3];
    SplitThreeDigits(d1, d2, d3);
    ValuesThreeDigits(d1, d2, d3);
  }

  /** "n":[d1,d2,d3] gives one number-array field n with the three digit values in order. */
  lemma NumberArrayExample(m: Machine, n: char, d1: char, d2: char, d3: char)
    requires m.state == BetweenFields && !Special(n)
    requires IsDigit(d1) && IsDigit(d2) && IsDigit(d3)
    ensures Parse(m, ['"', n, '"', ':', '[', d1, ',', d2, ',', d3, ']']).fields ==
            m.fields + [Field([n], JsonNumberArray, NumArr([CharToInt(d1), CharToInt(d2), CharToInt(d3)]))]
  {
    var p := [',', d2, ',', d3];
    var s := ['"'] + [n] + ['"'] + [':'] + ['['] + ([d1] + p + [']']);
    NumberArrayInput(n, d1, p);
    assert ']' !in p && '"' !in [n] && ' ' !in [n] && Gap([':']);
    assert Parse(m, s).fields ==
           m.fields + [Field([n], JsonNumberArray, NumArr([CharToInt(d1), CharToInt(d2), CharToInt(d3)]))] by {
      DropSpacesKeeps([n]);
      ThreeDigitValues(d1, d2, d3);
      NumberArrayField(m, [n], [':'], d1, p);
    }
  }

  /** The input of NumberArrayExample, cut into the pieces NumberArrayField reads. */
  lemma NumberArrayInput(n: char, d1: char, p: seq<char>)
    requires |p| == 4
    ensures ['"', n, '"', ':', '[', d1, p[0], p[1], p[2], p[3], ']'] == ['"'] + [n] + ['"'] + [':'] + ['['] + ([d1] + p + [']'])
  {
  }

  /** What a string array keeps of  a b"  after its opening quote, and that the quotes are then closed. */
  lemma QuotedFirstElement(a: char, b: char)
    requires !Special(a) && !Special(b)
    ensures Quoted([a, ' ', b, '"']) == [a, b] && !InsideAfter([a, ' ', b, '"'])
  {
    QuotedSnoc([], a); assert [] + [a] == [a];
    QuotedSnoc([a], ' '); assert [a] + [' '] == [a, ' '];
    QuotedSnoc([a, ' '], b); assert [a, ' '] + [b] == [a, ' ', b];
    QuotedSnoc([a, ' ', b], '"'); assert [a, ' ', b] + ['"'] == [a, ' ', b, '"'];
  }

  /** What a string array keeps of  a b","c"  after its opening quote: the space and the quotes go. */
  lemma QuotedExample(a: char, b: char, c: char)
    requires !Special(a) && !Special(b) && !Special(c)
    ensures Quoted([a, ' ', b, '"', ',', '"', c, '"']) == [a, b, ',', c]
  {
    var h := [a, ' ', b, '"'];
    QuotedFirstElement(a, b);
    QuotedSnoc(h, ','); assert h + [','] == [a, ' ', b, '"', ','];
    QuotedSnoc(h + [','], '"'); assert h + [','] + ['"'] == [a, ' ', b, '"', ',', '"'];
    QuotedSnoc(h + [','] + ['"'], c); assert h + [','] + ['"'] + [c] == [a, ' ', b, '"', ',', '"', c];
    QuotedSnoc(h + [','] + ['"'] + [c], '"');
    assert h + [','] + ['"'] + [c] + ['"'] == [a, ' ', b, '"', ',', '"', c, '"'];
    assert [a, b] + [','] + [c] == [a, b, ',', c];
  }

  /** The pieces of ab,c. */
  lemma SplitTwoElements(a: char, b: char, c: char)
    requires !Special(a) && !Special(b) && !Special(c)
    ensures Split([a, b, ',', c], ',') == [[a, b], [c]]
  {
    SplitNoSep([a, b], ','); SplitOne(c, ',');
    SplitConcat([a, b], [c], ',');
    assert [a, b] + [','] + [c] == [a, b, ',', c];
  }

  /** "n":["a b","c"] gives one string-array field n holding ab and c: spaces inside the quotes are dropped. */
  lemma StringArrayExample(m: Machine, n: char, a: char, b: char, c: char)
    requires m.state == BetweenFields && !Special(n)
    requires !Special(a) && !Special(b) && !Special(c)
    ensures Parse(m, ['"', n, '"', ':', '[', '"', a, ' ', b, '"', ',', '"', c, '"', ']']).fields ==
            m.fields + [Field([n], JsonStringArray, StrArr([[a, b], [c]]))]
  {
    var p := [a, ' ', b, '"', ',', '"', c, '"'];
    var s := ['"'] + [n] + ['"'] + [':'] + ['['] + (['"'] + p + [']']);
    assert ['"', n, '"', ':', '[', '"', a, ' ', b, '"', ',', '"', c, '"', ']'] == s;
    assert Parse(m, s).fields == m.fields + [Field([n], JsonStringArray, StrArr([[a, b], [c]]))] by {
      DropSpacesKeeps([n]);
      QuotedExample(a, b, c);
      SplitTwoElements(a, b, c);
      StringArrayField(m, [n], [':'], p);
    }
  }

  /** A one-letter name and a one-digit number: "n":d followed by t, t one of ',' and '}'. */
  lemma OneDigitField(m: Machine, n: char, d: char, t: char)
    requires m.state == BetweenFields && n != '"' && n != ' ' && IsDigit(d) && (t == ',' || t == '}')
    ensures Parse(m, ['"', n, '"', ':', d, t]).fields == m.fields + [Field([n], JsonNumber, Num(CharToInt(d)))]
    ensures Parse(m, ['"', n, '"', ':', d, t]).state == BetweenFields
  {
    assert ['"', n, '"', ':', d, t] == ['"'] + [n] + ['"'] + [':'] + ([d] + [] + [t]);
    DropSpacesKeeps([n]);
    OneDigit(d);
    assert [d] + [] == [d];
    NumberField(m, [n], [':'], d, [], t);
  }

  /** "a":1,"b":2} gives two fields in input order: a then b. */
  lemma TwoFieldsExample(m: Machine)
    requires m.state == BetweenFields
    ensures Parse(m, "\"a\":1,\"b\":2}").fields ==
            m.fields + [Field("a", JsonNumber, Num(1)), Field("b", JsonNumber, Num(2))]
  {
    var first := ['"', 'a', '"', ':', '1', ','];
    var second := ['"', 'b', '"', ':', '2', '}'];
    assert "\"a\":1,\"b\":2}" == first + second;
    OneDigitField(m, 'a', '1', ',');
    OneDigitField(Parse(m, first), 'b', '2', '}');
    ParseAppend(m, first, second);
  }

  /** "a": 1, parses exactly as "a":1, (the space after the colon is dropped). */
  lemma SpaceAfterColonExample(m: Machine)
    requires m.state == BetweenFields
    ensures Parse(m, "\"a\": 1,") == Parse(m, "\"a\":1,")
  {
    var s1 := ['"'] + "a" + ['"'] + ":";
    assert "\"a\": 1," == s1 + [' '] + "1,";
    assert "\"a\":1," == s1 + "1,";
    assert Parse(m, s1 + [' '] + "1,") == Parse(m, s1 + "1,") by {
      NameAndGap(m, "a", ":");
      SpaceInsertion(m, s1, "1,");
    }
  }
}
