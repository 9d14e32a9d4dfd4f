/** What the parser makes of whole runs of characters: field names, the four kinds of value,
    and the characters it ignores. */
module Streams {
  import opened JsonTypes
  import opened Text
  import opened Decimal
  import opened StateMachine
  import opened StepLemmas

  /** A run of characters each of which leaves m as it is leaves m as it is. */
  lemma {:induction false} Absorbs(m: Machine, w: string)
    requires forall k :: 0 <= k < |w| ==> Step(m, w[k]) == m
    ensures Parse(m, w) == m
  {
    if w != [] {
      Absorbs(m, w[..|w| - 1]);
    }
  }

  /** Between fields, a run without '"' changes nothing. */
  lemma BetweenFieldsRun(m: Machine, w: string)
    requires m.state == BetweenFields && '"' !in w
    ensures Parse(m, w) == m
  {
    forall k | 0 <= k < |w| ensures Step(m, w[k]) == m {
      Ignored(m, w[k]);
    }
    Absorbs(m, w);
  }

  /** Between a name and its value, a run without '"', '[' or a digit (the ':', spaces, a '-')
      changes nothing. */
  lemma AwaitingValueRun(m: Machine, w: string)
    requires m.state == BetweenFieldNameValue
    requires forall k :: 0 <= k < |w| ==> w[k] != '"' && w[k] != '[' && !IsDigit(w[k])
    ensures Parse(m, w) == m
  {
    forall k | 0 <= k < |w| ensures Step(m, w[k]) == m {
      Ignored(m, w[k]);
    }
    Absorbs(m, w);
  }

  /** An empty array commits nothing: after '[' every character other than '"' and a digit,
      the closing ']' included, is dropped, and the machine stays in ArrayStart. */
  lemma EmptyArray(m: Machine, w: string)
    requires m.state == BetweenFieldNameValue
    requires forall k :: 0 <= k < |w| ==> w[k] != '"' && !IsDigit(w[k])
    ensures Parse(m, ['['] + w) == m.(state := ArrayStart)
    ensures Parse(m, ['['] + w).fields == m.fields
  {
    var a := m.(state := ArrayStart);
    ParseAppend(m, ['['], w);
    assert Parse(m, ['[']) == Step(Parse(m, []), '[');
    forall k | 0 <= k < |w| ensures Step(a, w[k]) == a {
      Ignored(a, w[k]);
    }
    Absorbs(a, w);
  }

  // ---------------------------------------------------------------------------------------------
  // Field names and scalar values.

  /** Reading a field name: after the opening '"' every character but '"' is added to the name,
      spaces excepted. */
  lemma {:induction false} NamePrefix(m: Machine, p: string)
    requires m.state == BetweenFields && '"' !in p
    ensures Parse(m, ['"'] + p) == m.(curName := DropSpaces(p), curData := [], state := FieldName)
  {
    if p == [] {
      assert Parse(m, ['"']) == Step(Parse(m, []), '"');
    } else {
      var q, c := p[..|p| - 1], p[|p| - 1];
      NamePrefix(m, q);
      assert ['"'] + p == (['"'] + q) + [c];
      ParseSnoc(m, ['"'] + q, c);
    }
  }

  /** A quoted field name leaves the machine awaiting the value, with the name less its spaces. */
  lemma FieldNameRun(m: Machine, name: string)
    requires m.state == BetweenFields && '"' !in name
    ensures Parse(m, ['"'] + name + ['"']) ==
            m.(curName := DropSpaces(name), curData := [], state := BetweenFieldNameValue)
  {
    NamePrefix(m, name);
    ParseSnoc(m, ['"'] + name, '"');
  }

  /** A string value takes every character after its opening '"', spaces included. */
  lemma {:induction false} StringPrefix(m: Machine, p: string)
    requires m.state == BetweenFieldNameValue && '"' !in p
    ensures Parse(m, ['"'] + p) == m.(curType := JsonString, curData := p, state := FieldValueString)
  {
    if p == [] {
      assert Parse(m, ['"']) == Step(Parse(m, []), '"');
    } else {
      var q, c := p[..|p| - 1], p[|p| - 1];
      StringPrefix(m, q);
      assert ['"'] + p == (['"'] + q) + [c];
      ParseSnoc(m, ['"'] + q, c);
      assert q + [c] == p;
    }
  }

  /** A string value commits, at its closing '"', exactly its text, spaces included. */
  lemma StringValueRun(m: Machine, text: string)
    requires m.state == BetweenFieldNameValue && '"' !in text
    ensures Parse(m, ['"'] + text + ['"']).fields == m.fields + [Field(m.curName, JsonString, Str(text))]
    ensures Parse(m, ['"'] + text + ['"']).state == BetweenFields
  {
    StringPrefix(m, text);
    ParseSnoc(m, ['"'] + text, '"');
  }

  /** A number value keeps the digits read since its first digit and drops everything else. */
  lemma {:induction false} NumberPrefix(m: Machine, c0: char, p: string)
    requires m.state == BetweenFieldNameValue && IsDigit(c0)
    requires ',' !in p && '}' !in p
    ensures Parse(m, [c0] + p) == m.(curType := JsonNumber, curData := DigitsOf([c0] + p), state := FieldValueNumber)
  {
    if p == [] {
      assert Parse(m, [c0]) == Step(Parse(m, []), c0);
      assert DigitsOf([c0]) == DigitsOf([]) + [c0];
    } else {
      var q, c := p[..|p| - 1], p[|p| - 1];
      NumberPrefix(m, c0, q);
      assert [c0] + p == ([c0] + q) + [c];
      assert ([c0] + p)[..|[c0] + p| - 1] == [c0] + q;
      ParseSnoc(m, [c0] + q, c);
    }
  }

  /** A number value starts at a digit and commits at ',' or '}' the decimal value of its digits;
      every other character in it (a '-' too) is dropped, so the value is never negative. */
  lemma NumberValueRun(m: Machine, c0: char, p: string, t: char)
    requires m.state == BetweenFieldNameValue && IsDigit(c0)
    requires ',' !in p && '}' !in p && (t == ',' || t == '}')
    ensures Parse(m, [c0] + p + [t]).fields ==
            m.fields + [Field(m.curName, JsonNumber, Num(Horner(DigitsOf([c0] + p))))]
    ensures Parse(m, [c0] + p + [t]).state == BetweenFields
    ensures Horner(DigitsOf([c0] + p)) >= 0
  {
    NumberPrefix(m, c0, p);
    ParseSnoc(m, [c0] + p, t);
    ConvertedDigits(DigitsOf([c0] + p));
  }

  // ---------------------------------------------------------------------------------------------
  // Arrays.

  /** The value of each comma-separated piece: the decimal value of its digits. */
  function Values(pieces: seq<string>): (vs: seq<int>)
    ensures |vs| == |pieces|
  {
    if pieces == [] then []
    else Values(pieces[..|pieces| - 1]) + [Horner(DigitsOf(pieces[|pieces| - 1]))]
  }

  /** Element k of the values is the decimal value of the digits of piece k, never negative. */
  lemma {:induction false} ValuesAt(pieces: seq<string>)
    ensures forall k :: 0 <= k < |pieces| ==>
              Values(pieces)[k] == Horner(DigitsOf(pieces[k])) && Values(pieces)[k] >= 0
  {
    if pieces != [] {
      var init := pieces[..|pieces| - 1];
      ValuesAt(init);
      assert forall k :: 0 <= k < |init| ==> pieces[k] == init[k];
    }
  }

  /** One more piece is one more value, at the end. */
  lemma ValuesSnoc(pieces: seq<string>, p: string)
    ensures Values(pieces + [p]) == Values(pieces) + [Horner(DigitsOf(p))]
  {
    assert (pieces + [p])[..|pieces|] == pieces;
  }

  /** r is what the machine holds after reading s, from m, as a number array. */
  predicate NumberArrayReading(r: Machine, m: Machine, s: string)
  {
    var pieces := Split(s, ',');
    r == m.(state := ArrayNumber, curType := JsonNumberArray,
            arrNum := Values(pieces[..|pieces| - 1]), tmpValue := DigitsOf(pieces[|pieces| - 1]))
  }

  /** A comma closes the number-array element being read. */
  lemma NumberArrayCommaStep(r: Machine, m: Machine, s: string)
    requires NumberArrayReading(r, m, s)
    ensures NumberArrayReading(Step(r, ','), m, s + [','])
  {
    var ps := Split(s, ',');
    var front, last := ps[..|ps| - 1], ps[|ps| - 1];
    NumberArrayStep(r, ',');
    ConvertedDigits(r.tmpValue);
    ValuesSnoc(front, last);
    assert front + [last] == ps;
    SplitSnoc(s, ',', ',');
    var ps' := ps + [[]];
    assert ps'[..|ps'| - 1] == ps;
  }

  /** Any character but ',' and ']' extends the number-array element being read, by its digits only. */
  lemma NumberArrayOtherStep(r: Machine, m: Machine, s: string, c: char)
    requires NumberArrayReading(r, m, s) && c != ']' && c != ','
    ensures NumberArrayReading(Step(r, c), m, s + [c])
  {
    var ps := Split(s, ',');
    var last := ps[|ps| - 1];
    NumberArrayStep(r, c);
    SplitSnoc(s, c, ',');
    DigitsOfSnoc(last, c);
    var ps' := ps[..|ps| - 1] + [last + [c]];
    assert ps'[..|ps'| - 1] == ps[..|ps| - 1];
  }

  /** Every character but ']' keeps a number array being read. */
  lemma NumberArrayReadingStep(r: Machine, m: Machine, s: string, c: char)
    requires NumberArrayReading(r, m, s) && c != ']'
    ensures NumberArrayReading(Step(r, c), m, s + [c])
  {
    if c == ',' {
      NumberArrayCommaStep(r, m, s);
    } else {
      NumberArrayOtherStep(r, m, s, c);
    }
  }

  /** From ArrayStart a digit opens a number array whose first element holds that digit. */
  lemma NumberArrayOpen(m: Machine, c0: char)
    requires m.state == ArrayStart && IsDigit(c0)
    ensures Step(m, c0) == m.(state := ArrayNumber, curType := JsonNumberArray, tmpValue := [c0], arrNum := [])
  {
  }

  /** The first digit after '[' starts a number array being read. */
  lemma NumberArrayStart(m: Machine, c0: char)
    requires m.state == ArrayStart && IsDigit(c0)
    ensures NumberArrayReading(Parse(m, [c0]), m, [c0])
  {
    ParseOne(m, c0);
    NumberArrayOpen(m, c0);
    SplitOne(c0, ',');
    DigitsOfSnoc([], c0);
    assert [] + [c0] == [c0];
    var ps := Split([c0], ',');
    assert ps[..0] == [] && ps[0] == [c0];
    assert Values(ps[..0]) == [];
  }

  /** A number array is being read after its first digit and any run without ']'. */
  lemma {:induction false} NumberArrayPrefix(m: Machine, c0: char, p: string)
    requires m.state == ArrayStart && IsDigit(c0) && ']' !in p
    ensures NumberArrayReading(Parse(m, [c0] + p), m, [c0] + p)
  {
    if p == [] {
      assert [c0] + p == [c0];
      NumberArrayStart(m, c0);
    } else {
      var q, c := p[..|p| - 1], p[|p| - 1];
      NumberArrayPrefix(m, c0, q);
      var s := [c0] + q;
      assert [c0] + p == s + [c];
      ParseSnoc(m, s, c);
      NumberArrayReadingStep(Parse(m, s), m, s, c);
    }
  }

  /** A number array commits at ']' one element per comma-separated piece, in order, each the
      decimal value of the piece's digits: (number of commas) + 1 elements, none negative. */
  lemma NumberArrayRun(m: Machine, c0: char, p: string)
    requires m.state == ArrayStart && IsDigit(c0) && ']' !in p
    ensures Parse(m, [c0] + p + [']']).fields ==
            m.fields + [Field(m.curName, JsonNumberArray, NumArr(Values(Split([c0] + p, ','))))]
    ensures Parse(m, [c0] + p + [']']).state == BetweenFields
    ensures |Values(Split([c0] + p, ','))| == Count([c0] + p, ',') + 1
  {
    NumberArrayPrefix(m, c0, p);
    ParseSnoc(m, [c0] + p, ']');
    var r := Parse(m, [c0] + p);
    ConvertedDigits(r.tmpValue);
    var ps := Split([c0] + p, ',');
    assert Values(ps) == Values(ps[..|ps| - 1]) + [Horner(DigitsOf(ps[|ps| - 1]))];
  }

  /** Round trip: writing non-empty digit strings d1,...,dn between '[' and ']' separated by commas,
      and feeding that just after '[', commits a number array whose k-th element is the value of dk. */
  lemma NumberArrayRoundTrip(m: Machine, ds: seq<string>)
    requires m.state == ArrayStart && |ds| >= 1
    requires forall k :: 0 <= k < |ds| ==> |ds[k]| >= 1 && AllDigits(ds[k])
    ensures Parse(m, Join(ds, ',') + [']']).fields ==
            m.fields + [Field(m.curName, JsonNumberArray, NumArr(Values(ds)))]
    ensures |Values(ds)| == |ds|
    ensures forall k :: 0 <= k < |ds| ==> Values(ds)[k] == Horner(ds[k])
  {
    var s := Join(ds, ',');
    assert forall k :: 0 <= k < |ds| ==> ',' !in ds[k] && ']' !in ds[k] by {
      forall k | 0 <= k < |ds|
        ensures ',' !in ds[k] && ']' !in ds[k]
      {
        assert forall j :: 0 <= j < |ds[k]| ==> IsDigit(ds[k][j]);
      }
    }
    JoinAvoids(ds, ',', ']');
    JoinStartsWithFirst(ds, ',');
    SplitJoin(ds, ',');
    var c0, p := s[0], s[1..];
    assert IsDigit(c0) by { assert ds[0][0] == s[0]; }
    assert [c0] + p == s;
    NumberArrayRun(m, c0, p);
    ValuesAt(ds);
  }

  /** Whether a string array is between quotes after reading s past its opening quote: the
      flag starts set and every '"' flips it, so it is set exactly when s holds an even number of quotes. */
  predicate InsideAfter(s: string)
  {
    if s == [] then true
    else if s[|s| - 1] == '"' then !InsideAfter(s[..|s| - 1])
    else InsideAfter(s[..|s| - 1])
  }

  /** What a string array keeps of s (read after its opening quote): every comma, and every other
      character that is not a quote or a space and stands between quotes. */
  function Quoted(s: string): string
  {
    if s == [] then []
    else
      var q, c := s[..|s| - 1], s[|s| - 1];
      if c == ',' || (c != '"' && c != ' ' && InsideAfter(q)) then Quoted(q) + [c] else Quoted(q)
  }

  /** How Quoted and InsideAfter extend by one character. */
  lemma QuotedSnoc(q: string, c: char)
    ensures Quoted(q + [c]) ==
            if c == ',' || (c != '"' && c != ' ' && InsideAfter(q)) then Quoted(q) + [c] else Quoted(q)
    ensures InsideAfter(q + [c]) == (if c == '"' then !InsideAfter(q) else InsideAfter(q))
  {
    assert (q + [c])[..|q|] == q;
  }

  /** What a string array keeps has as many commas as the text read, and no quote and no space;
      no ']' either when the text has none. */
  lemma {:induction false} QuotedKeeps(s: string)
    ensures Count(Quoted(s), ',') == Count(s, ',')
    ensures '"' !in Quoted(s) && ' ' !in Quoted(s)
    ensures ']' !in s ==> ']' !in Quoted(s)
  {
    if s != [] {
      var q, c := s[..|s| - 1], s[|s| - 1];
      QuotedKeeps(q);
      assert q + [c] == s;
      QuotedSnoc(q, c);
      SplitSnoc(q, c, ',');
      SplitSnoc(Quoted(q), c, ',');
    }
  }

  /** r is what the machine holds after reading, from m, an opening quote and then s as a string array. */
  predicate StringArrayReading(r: Machine, m: Machine, s: string)
  {
    var pieces := Split(Quoted(s), ',');
    r == m.(state := ArrayString, curType := JsonStringArray, inStr := InsideAfter(s),
            arrStr := pieces[..|pieces| - 1], tmpValue := pieces[|pieces| - 1])
  }

  /** A comma closes the string-array element being read, between quotes or not. */
  lemma StringArrayCommaStep(r: Machine, m: Machine, s: string)
    requires StringArrayReading(r, m, s)
    ensures StringArrayReading(Step(r, ','), m, s + [','])
  {
    QuotedSnoc(s, ',');
    StringArrayStep(r, ',');
    var ps := Split(Quoted(s), ',');
    assert ps[..|ps| - 1] + [ps[|ps| - 1]] == ps;
    SplitSnoc(Quoted(s), ',', ',');
    var ps' := ps + [[]];
    assert ps'[..|ps'| - 1] == ps;
  }

  /** A quote toggles whether the string array is between quotes. */
  lemma StringArrayQuoteStep(r: Machine, m: Machine, s: string)
    requires StringArrayReading(r, m, s)
    ensures StringArrayReading(Step(r, '"'), m, s + ['"'])
  {
    QuotedSnoc(s, '"');
    StringArrayStep(r, '"');
  }

  /** Any other character but ']' is kept only between quotes. */
  lemma StringArrayTextStep(r: Machine, m: Machine, s: string, c: char)
    requires StringArrayReading(r, m, s) && c != ']' && c != ',' && c != '"'
    ensures StringArrayReading(Step(r, c), m, s + [c])
  {
    QuotedSnoc(s, c);
    if c == ' ' {
      SpaceIgnored(r);
    } else {
      StringArrayStep(r, c);
      if InsideAfter(s) {
        var ps := Split(Quoted(s), ',');
        var last := ps[|ps| - 1];
        SplitSnoc(Quoted(s), c, ',');
        var ps' := ps[..|ps| - 1] + [last + [c]];
        assert ps'[..|ps'| - 1] == ps[..|ps| - 1];
      }
    }
  }

  /** Every character but ']' keeps a string array being read. */
  lemma StringArrayReadingStep(r: Machine, m: Machine, s: string, c: char)
    requires StringArrayReading(r, m, s) && c != ']'
    ensures StringArrayReading(Step(r, c), m, s + [c])
  {
    if c == ',' {
      StringArrayCommaStep(r, m, s);
    } else if c == '"' {
      StringArrayQuoteStep(r, m, s);
    } else {
      StringArrayTextStep(r, m, s, c);
    }
  }

  /** A string array is being read after its opening quote and any run without ']'. */
  lemma {:induction false} StringArrayPrefix(m: Machine, p: string)
    requires m.state == ArrayStart && ']' !in p
    ensures StringArrayReading(Parse(m, ['"'] + p), m, p)
  {
    if p == [] {
      assert Parse(m, ['"']) == Step(Parse(m, []), '"');
    } else {
      var q, c := p[..|p| - 1], p[|p| - 1];
      StringArrayPrefix(m, q);
      assert ['"'] + p == (['"'] + q) + [c];
      assert p == q + [c];
      ParseSnoc(m, ['"'] + q, c);
      StringArrayReadingStep(Parse(m, ['"'] + q), m, q, c);
    }
  }

  /** A string array commits at ']' one element per comma-separated piece of the quoted text:
      (number of commas) + 1 elements, in order. */
  lemma StringArrayRun(m: Machine, p: string)
    requires m.state == ArrayStart && ']' !in p
    ensures Parse(m, ['"'] + p + [']']).fields ==
            m.fields + [Field(m.curName, JsonStringArray, StrArr(Split(Quoted(p), ',')))]
    ensures Parse(m, ['"'] + p + [']']).state == BetweenFields
    ensures |Split(Quoted(p), ',')| == Count(p, ',') + 1
  {
    StringArrayPrefix(m, p);
    QuotedKeeps(p);
    ParseSnoc(m, ['"'] + p, ']');
    var ps := Split(Quoted(p), ',');
    assert ps == ps[..|ps| - 1] + [ps[|ps| - 1]];
  }

  /** The text of a string array with elements e1, ..., en as it is written after its opening
      quote: e1","e2",...,"en" followed by the closing quote. */
  function StringArrayBody(es: seq<string>): string
    requires |es| >= 1
  {
    if |es| == 1 then es[0] + ['"']
    else StringArrayBody(es[..|es| - 1]) + [',', '"'] + es[|es| - 1] + ['"']
  }

  /** Between quotes, an element character is kept. */
  lemma QuotedText(q: string, c: char)
    requires InsideAfter(q) && c != ',' && c != '"' && c != ' '
    ensures Quoted(q + [c]) == Quoted(q) + [c]
    ensures InsideAfter(q + [c])
  {
    QuotedSnoc(q, c);
  }

  /** A quote is dropped and toggles the quotes. */
  lemma QuotedQuote(q: string)
    ensures Quoted(q + ['"']) == Quoted(q)
    ensures InsideAfter(q + ['"']) == !InsideAfter(q)
  {
    QuotedSnoc(q, '"');
  }

  /** A comma is kept and leaves the quotes as they were. */
  lemma QuotedComma(q: string)
    ensures Quoted(q + [',']) == Quoted(q) + [',']
    ensures InsideAfter(q + [',']) == InsideAfter(q)
  {
    QuotedSnoc(q, ',');
  }

  /** One more element character after element text already kept between quotes. */
  lemma QuotedInsideStep(q: string, e: string, c: char)
    requires InsideAfter(q) && c != ',' && c != '"' && c != ' '
    requires Quoted(q + e) == Quoted(q) + e && InsideAfter(q + e)
    ensures Quoted(q + e + [c]) == Quoted(q) + e + [c]
    ensures InsideAfter(q + e + [c])
  {
    QuotedText(q + e, c);
  }

  /** Between quotes, element text is kept as it is and the quotes stay open. */
  lemma {:induction false} QuotedInside(q: string, e: string)
    requires InsideAfter(q) && ElementText(e)
    ensures Quoted(q + e) == Quoted(q) + e
    ensures InsideAfter(q + e)
  {
    if e == [] {
      assert q + e == q;
    } else {
      var e', c := e[..|e| - 1], e[|e| - 1];
      assert e == e' + [c];
      assert ElementText(e') && c != ',' && c != '"' && c != ' ';
      QuotedInside(q, e');
      QuotedInsideStep(q, e', c);
      assert q + e' + [c] == q + e;
      assert Quoted(q) + e' + [c] == Quoted(q) + e;
    }
  }

  /** After a closed element, ,"e" adds a comma and e to what is kept and closes the quotes again. */
  lemma NextElement(b: string, e: string)
    requires !InsideAfter(b) && ElementText(e)
    ensures Quoted(b + [',', '"'] + e + ['"']) == Quoted(b) + [','] + e
    ensures !InsideAfter(b + [',', '"'] + e + ['"'])
  {
    QuotedComma(b);
    QuotedQuote(b + [',']);
    var a := b + [',', '"'];
    assert b + [','] + ['"'] == a;
    QuotedInside(a, e);
    QuotedQuote(a + e);
  }

  /** The element texts come out of the quotes joined by commas, the quotes closed, and no ']' in between. */
  lemma {:induction false} StringArrayBodyQuoted(es: seq<string>)
    requires |es| >= 1
    requires forall k :: 0 <= k < |es| ==> ElementText(es[k])
    ensures Quoted(StringArrayBody(es)) == Join(es, ',')
    ensures !InsideAfter(StringArrayBody(es))
    ensures ']' !in StringArrayBody(es)
  {
    var e := es[|es| - 1];
    if |es| == 1 {
      QuotedInside([], e);
      assert [] + e == e;
      QuotedQuote(e);
    } else {
      var init := es[..|es| - 1];
      assert forall k :: 0 <= k < |init| ==> init[k] == es[k];
      StringArrayBodyQuoted(init);
      NextElement(StringArrayBody(init), e);
    }
  }

  /** Round trip: writing element texts (no space, quote, comma or ']') each between quotes,
      separated by commas and closed by ']', and feeding that just after '[', commits a string array
      holding exactly those elements, in order. */
  lemma StringArrayRoundTrip(m: Machine, es: seq<string>)
    requires m.state == ArrayStart && |es| >= 1
    requires forall k :: 0 <= k < |es| ==> ElementText(es[k])
    ensures Parse(m, ['"'] + StringArrayBody(es) + [']']).fields ==
            m.fields + [Field(m.curName, JsonStringArray, StrArr(es))]
  {
    StringArrayBodyQuoted(es);
    SplitJoin(es, ',');
    StringArrayRun(m, StringArrayBody(es));
  }

  // ---------------------------------------------------------------------------------------------
  // Whole fields: "name", the characters between name and value, and the value.

  /** Characters dropped between a field name and its value: anything but '"', '[' and a digit. */
  predicate Gap(w: string)
  {
    forall k :: 0 <= k < |w| ==> w[k] != '"' && w[k] != '[' && !IsDigit(w[k])
  }

  /** The machine after a quoted name and a gap: awaiting the value, with the name less its spaces. */
  lemma NameAndGap(m: Machine, name: string, gap: string)
    requires m.state == BetweenFields && '"' !in name && Gap(gap)
    ensures Parse(m, ['"'] + name + ['"'] + gap) ==
            m.(curName := DropSpaces(name), curData := [], state := BetweenFieldNameValue)
  {
    FieldNameRun(m, name);
    ParseAppend(m, ['"'] + name + ['"'], gap);
    AwaitingValueRun(m.(curName := DropSpaces(name), curData := [], state := BetweenFieldNameValue), gap);
  }

  /** "name" gap digits t, with t one of ',' and '}', commits one number field. */
  lemma NumberField(m: Machine, name: string, gap: string, c0: char, p: string, t: char)
    requires m.state == BetweenFields && '"' !in name && Gap(gap)
    requires IsDigit(c0) && ',' !in p && '}' !in p && (t == ',' || t == '}')
    ensures var r := Parse(m, ['"'] + name + ['"'] + gap + ([c0] + p + [t]));
            r.fields == m.fields + [Field(DropSpaces(name), JsonNumber, Num(Horner(DigitsOf([c0] + p))))] &&
            r.state == BetweenFields
  {
    var head := ['"'] + name + ['"'] + gap;
    NameAndGap(m, name, gap);
    ParseAppend(m, head, [c0] + p + [t]);
    NumberValueRun(Parse(m, head), c0, p, t);
  }

  /** "name" gap "text" commits one string field holding text, spaces included. */
  lemma StringField(m: Machine, name: string, gap: string, text: string)
    requires m.state == BetweenFields && '"' !in name && Gap(gap) && '"' !in text
    ensures var r := Parse(m, ['"'] + name + ['"'] + gap + (['"'] + text + ['"']));
            r.fields == m.fields + [Field(DropSpaces(name), JsonString, Str(text))] &&
            r.state == BetweenFields
  {
    var head := ['"'] + name + ['"'] + gap;
    NameAndGap(m, name, gap);
    ParseAppend(m, head, ['"'] + text + ['"']);
    StringValueRun(Parse(m, head), text);
  }

  /** After an empty array the parser is still at array start, so the next field's opening quote
      opens a string array: nothing is committed until a ']' arrives. */
  lemma AfterEmptyArray(m: Machine, w: string, p: string)
    requires m.state == ArrayStart && ']' !in p
    requires forall k :: 0 <= k < |w| ==> w[k] != '"' && !IsDigit(w[k])
    ensures Parse(m, w + (['"'] + p)).state == ArrayString
    ensures Parse(m, w + (['"'] + p)).fields == m.fields
  {
    forall k | 0 <= k < |w| ensures Step(m, w[k]) == m {
      Ignored(m, w[k]);
    }
    Absorbs(m, w);
    ParseAppend(m, w, ['"'] + p);
    StringArrayPrefix(m, p);
  }

  /** "name" gap [ digits, digits, ... ] commits one number-array field. */
  lemma NumberArrayField(m: Machine, name: string, gap: string, c0: char, p: string)
    requires m.state == BetweenFields && '"' !in name && Gap(gap)
    requires IsDigit(c0) && ']' !in p
    ensures var r := Parse(m, ['"'] + name + ['"'] + gap + ['['] + ([c0] + p + [']']));
            r.fields == m.fields + [Field(DropSpaces(name), JsonNumberArray, NumArr(Values(Split([c0] + p, ','))))] &&
            r.state == BetweenFields
  {
    var head := ['"'] + name + ['"'] + gap;
    NameAndGap(m, name, gap);
    var m1 := Parse(m, head);
    ParseAppend(m, head, ['[']);
    ParseOne(m1, '[');
    ParseAppend(m, head + ['['], [c0] + p + [']']);
    NumberArrayRun(m1.(state := ArrayStart), c0, p);
  }

  /** "name" gap [ "...", "..." ] commits one string-array field. */
  lemma StringArrayField(m: Machine, name: string, gap: string, p: string)
    requires m.state == BetweenFields && '"' !in name && Gap(gap) && ']' !in p
    ensures var r := Parse(m, ['"'] + name + ['"'] + gap + ['['] + (['"'] + p + [']']));
            r.fields == m.fields + [Field(DropSpaces(name), JsonStringArray, StrArr(Split(Quoted(p), ',')))] &&
            r.state == BetweenFields
  {
    var head := ['"'] + name + ['"'] + gap;
    NameAndGap(m, name, gap);
    var m1 := Parse(m, head);
    ParseAppend(m, head, ['[']);
    ParseOne(m1, '[');
    ParseAppend(m, head + ['['], ['"'] + p + [']']);
    StringArrayRun(m1.(state := ArrayStart), p);
  }

  /** A space fed outside a string value can be inserted or removed without changing the result. */
  lemma SpaceInsertion(m: Machine, s1: string, s2: string)
    requires Parse(m, s1).state != FieldValueString
    ensures Parse(m, s1 + [' '] + s2) == Parse(m, s1 + s2)
  {
    ParseAppend(m, s1 + [' '], s2);
    ParseSnoc(m, s1, ' ');
    SpaceIgnored(Parse(m, s1));
    ParseAppend(m, s1, s2);
  }
}
